/**
  Encodings, round trips, and the compatibility rule that unknown fields are ignored.
 */
module WireEncoding {
  import opened MachineWords
  import opened Options
  import opened WireVarint
  import opened WireMessages

  // ---------- encodings ----------

  /** A number field; zero is not written. */
  function PutNumber(tag: Byte, v: nat): seq<Byte> {
    if v == 0 then [] else [tag] + PutVarint(v)
  }

  /** A length-delimited field; an empty payload is written only where `always` says so. */
  function PutBytes(tag: Byte, b: seq<Byte>, always: bool): seq<Byte> {
    if b == [] && !always then [] else [tag] + PutVarint(|b|) + b
  }

  function EncodeTxResult(t: TxResult): seq<Byte> {
    PutNumber(0x08, AsUint64(t.height))
    + (PutNumber(0x10, t.txIndex)
       + (PutNumber(0x18, t.msgIndex)
          + EncodeTxResultTail(t)))
  }

  /** The fields from eth_tx_index on. */
  function EncodeTxResultTail(t: TxResult): seq<Byte> {
    PutNumber(0x20, AsUint64(t.ethTxIndex))
    + (PutNumber(0x28, if t.failed then 1 else 0)
       + (PutNumber(0x30, t.gasUsed)
          + PutNumber(0x38, t.cumulativeGasUsed)))
  }

  function EncodeWeb3Tx(w: Web3Tx): seq<Byte> {
    PutNumber(0x08, w.typedDataChainId) + (PutBytes(0x12, w.feePayer, false) + PutBytes(0x1a, w.feePayerSig, false))
  }

  function EncodeGeneric(g: GenericMessage): seq<Byte> {
    PutBytes(0x0a, g.header, false) + PutBytes(0x12, g.data, false)
  }

  /** TxResponseData: every message is written, with its own length in front. */
  function EncodeData(ms: seq<GenericMessage>): seq<Byte> {
    if ms == [] then [] else PutBytes(0x0a, EncodeGeneric(ms[0]), true) + EncodeData(ms[1..])
  }

  // ---------- one field at a time ----------

  lemma StandsIn(a: seq<Byte>, v: seq<Byte>, b: seq<Byte>)
    ensures StandsAt(a + v + b, |a|, v)
  {
  }

  lemma OneByteTag(data: seq<Byte>, tag: Byte)
    requires data != [] && data[0] == tag && tag < 0x80
    ensures GetVarint(data, 0, 0) == Read(tag, 1)
    ensures FieldNumber(tag) == tag / 8 && WireType(tag) == tag % 8
  {
  }

  lemma SingleField(m: Msg, data: seq<Byte>, m': Msg)
    requires data != [] && Field(m, data, 0) == Next(m', |data|)
    ensures Decode(m, data, 0) == Ok(m')
  {
  }

  lemma FieldIsNumber(m: Msg, num: int, tag: Byte, data: seq<Byte>)
    requires IsNumber(m, num) && tag == 8 * num && data != [] && data[0] == tag
    ensures Field(m, data, 0) == NumberField(m, num, 0, data, 1)
  {
    OneByteTag(data, tag);
  }

  lemma FieldIsBytes(m: Msg, num: int, tag: Byte, data: seq<Byte>)
    requires IsBytes(m, num) && tag == 8 * num + 2 && data != [] && data[0] == tag
    ensures Field(m, data, 0) == BytesField(m, num, 2, data, 1)
  {
    OneByteTag(data, tag);
  }

  /** A varint after a one-byte tag is read back. */
  lemma VarintAfterTag(tag: Byte, v: nat, rest: seq<Byte>)
    requires v < U64
    ensures GetVarint([tag] + PutVarint(v) + rest, 1, 0) == Read(v, 1 + |PutVarint(v)|)
  {
    PutVarintWellFormed(v);
    StandsIn([tag], PutVarint(v), rest);
    GetVarintAt([tag] + PutVarint(v) + rest, 1, PutVarint(v));
  }

  lemma NumberFieldDecodes(m: Msg, num: int, tag: Byte, v: nat)
    requires IsNumber(m, num) && tag == 8 * num && 0 < v < U64
    ensures Decode(m, PutNumber(tag, v), 0) == Ok(WithNumber(m, num, v))
  {
    var data := [tag] + PutVarint(v) + [];
    VarintAfterTag(tag, v, []);
    FieldIsNumber(m, num, tag, data);
    SingleField(m, data, WithNumber(m, num, v));
    assert PutNumber(tag, v) == data;
  }

  lemma NumberAccepted(m: Msg, num: int, tag: Byte, v: nat, rest: seq<Byte>)
    requires IsNumber(m, num) && tag == 8 * num && v < U64
    requires |PutNumber(tag, v) + rest| < I63
    ensures Accepted(m, PutNumber(tag, v) + rest) == Accepted(if v == 0 then m else WithNumber(m, num, v), rest)
  {
    if v > 0 {
      NumberFieldDecodes(m, num, tag, v);
      DecodeConcat(m, PutNumber(tag, v), rest);
    } else {
      assert PutNumber(tag, v) + rest == rest;
    }
  }

  lemma SuffixOf(a: seq<Byte>, b: seq<Byte>)
    ensures (a + b)[|a|..|a + b|] == b
  {
  }

  lemma SpanToEnd(data: seq<Byte>, i: nat, n: nat, length: nat)
    requires GetVarint(data, i, 0) == Read(length, n) && n + length == |data| < I63
    ensures GetSpan(data, i) == Span(n, |data|)
  {
    hide GetVarint;
  }

  lemma SpanAfterTag(tag: Byte, b: seq<Byte>)
    requires |PutBytes(tag, b, true)| < I63
    ensures var data := PutBytes(tag, b, true);
            var from := 1 + |PutVarint(|b|)|;
            GetSpan(data, 1) == Span(from, |data|) && data[from..|data|] == b
  {
    var head := [tag] + PutVarint(|b|);
    VarintAfterTag(tag, |b|, b);
    SuffixOf(head, b);
    SpanToEnd(head + b, 1, |head|, |b|);
  }

  lemma BytesFieldDecodes(m: Msg, num: int, tag: Byte, b: seq<Byte>)
    requires IsBytes(m, num) && tag == 8 * num + 2
    requires |PutBytes(tag, b, true)| < I63
    ensures Decode(m, PutBytes(tag, b, true), 0) == WithBytes(m, num, b)
  {
    var data := PutBytes(tag, b, true);
    SpanAfterTag(tag, b);
    FieldIsBytes(m, num, tag, data);
    if WithBytes(m, num, b).Ok? { SingleField(m, data, WithBytes(m, num, b).msg); }
  }

  lemma BytesAccepted(m: Msg, num: int, tag: Byte, b: seq<Byte>, always: bool, rest: seq<Byte>)
    requires IsBytes(m, num) && tag == 8 * num + 2
    requires |PutBytes(tag, b, always) + rest| < I63 && WithBytes(m, num, b).Ok?
    ensures Accepted(m, PutBytes(tag, b, always) + rest)
            == Accepted(if b == [] && !always then m else WithBytes(m, num, b).msg, rest)
  {
    if b != [] || always {
      assert PutBytes(tag, b, always) == PutBytes(tag, b, true);
      BytesFieldDecodes(m, num, tag, b);
      DecodeConcat(m, PutBytes(tag, b, always), rest);
    } else {
      assert PutBytes(tag, b, always) + rest == rest;
    }
  }

  // ---------- whole messages ----------

  /** Decoding an encoding into an existing value overwrites exactly the fields that are not zero. */
  function MergeTxResult(old_: TxResult, t: TxResult): TxResult {
    TxResult(
      if t.height == 0 then old_.height else t.height,
      if t.txIndex == 0 then old_.txIndex else t.txIndex,
      if t.msgIndex == 0 then old_.msgIndex else t.msgIndex,
      if t.ethTxIndex == 0 then old_.ethTxIndex else t.ethTxIndex,
      old_.failed || t.failed,
      if t.gasUsed == 0 then old_.gasUsed else t.gasUsed,
      if t.cumulativeGasUsed == 0 then old_.cumulativeGasUsed else t.cumulativeGasUsed)
  }

  const ZERO_TX_RESULT: TxResult := TxResult(0, 0, 0, 0, false, 0, 0)

  lemma SignedRoundTrip(x: Int64)
    ensures AsInt64(AsUint64(x)) == x
    ensures -0x8000_0000 <= x < 0x8000_0000 ==> AsInt32(AsUint64(x)) == x
  {
  }

  lemma {:induction false} VarintLength(v: nat)
    requires v < U64
    ensures |PutVarint(v)| <= 10
  {
    PutVarintWellFormed(v);
  }

  lemma TxResultLength(t: TxResult)
    ensures |EncodeTxResult(t)| <= 77
  {
    VarintLength(AsUint64(t.height));
    VarintLength(t.txIndex);
    VarintLength(t.msgIndex);
    VarintLength(AsUint64(t.ethTxIndex));
    VarintLength(t.gasUsed);
    VarintLength(t.cumulativeGasUsed);
  }

  lemma TxResultGasMerges(o: TxResult, t: TxResult)
    ensures var m := MergeTxResult(o, t);
            Accepted(Result(o), PutNumber(0x30, t.gasUsed) + PutNumber(0x38, t.cumulativeGasUsed))
            == Some(Result(o.(gasUsed := m.gasUsed, cumulativeGasUsed := m.cumulativeGasUsed)))
  {
    TxResultLength(t);
    var m6 := o.(gasUsed := MergeTxResult(o, t).gasUsed);
    var e7 := PutNumber(0x38, t.cumulativeGasUsed);
    NumberAccepted(Result(o), 6, 0x30, t.gasUsed, e7);
    assert e7 + [] == e7;
    NumberAccepted(Result(m6), 7, 0x38, t.cumulativeGasUsed, []);
  }

  lemma TxResultTailMerges(o: TxResult, t: TxResult)
    ensures var m := MergeTxResult(o, t);
            Accepted(Result(o), EncodeTxResultTail(t))
            == Some(Result(o.(ethTxIndex := m.ethTxIndex, failed := m.failed, gasUsed := m.gasUsed,
                              cumulativeGasUsed := m.cumulativeGasUsed)))
  {
    hide Accepted;
    TxResultLength(t);
    SignedRoundTrip(t.ethTxIndex);
    var m := MergeTxResult(o, t);
    var e6 := PutNumber(0x30, t.gasUsed) + PutNumber(0x38, t.cumulativeGasUsed);
    var e5 := PutNumber(0x28, if t.failed then 1 else 0) + e6;
    var m4 := o.(ethTxIndex := m.ethTxIndex);
    var m5 := m4.(failed := m.failed);
    NumberAccepted(Result(o), 4, 0x20, AsUint64(t.ethTxIndex), e5);
    NumberAccepted(Result(m4), 5, 0x28, if t.failed then 1 else 0, e6);
    TxResultGasMerges(m5, t);
  }

  lemma TxResultMerges(o: TxResult, t: TxResult)
    ensures Accepted(Result(o), EncodeTxResult(t)) == Some(Result(MergeTxResult(o, t)))
  {
    hide Accepted;
    TxResultLength(t);
    SignedRoundTrip(t.height);
    var m := MergeTxResult(o, t);
    var e4 := EncodeTxResultTail(t);
    var e3 := PutNumber(0x18, t.msgIndex) + e4;
    var e2 := PutNumber(0x10, t.txIndex) + e3;
    var m1 := o.(height := m.height);
    var m2 := m1.(txIndex := m.txIndex);
    var m3 := m2.(msgIndex := m.msgIndex);
    NumberAccepted(Result(o), 1, 0x08, AsUint64(t.height), e2);
    NumberAccepted(Result(m1), 2, 0x10, t.txIndex, e3);
    NumberAccepted(Result(m2), 3, 0x18, t.msgIndex, e4);
    TxResultTailMerges(m3, t);
  }

  /** Unmarshal of Marshal gives the value back, negative integers included. */
  lemma TxResultRoundTrip(t: TxResult)
    ensures Accepted(Result(ZERO_TX_RESULT), EncodeTxResult(t)) == Some(Result(t))
  {
    TxResultMerges(ZERO_TX_RESULT, t);
  }

  function MergeWeb3Tx(o: Web3Tx, w: Web3Tx): Web3Tx {
    Web3Tx(
      if w.typedDataChainId == 0 then o.typedDataChainId else w.typedDataChainId,
      if w.feePayer == [] then o.feePayer else w.feePayer,
      if w.feePayerSig == [] then o.feePayerSig else w.feePayerSig)
  }

  lemma Web3TxMerges(o: Web3Tx, w: Web3Tx)
    requires |EncodeWeb3Tx(w)| < I63
    ensures Accepted(Web3(o), EncodeWeb3Tx(w)) == Some(Web3(MergeWeb3Tx(o, w)))
  {
    var e3 := PutBytes(0x1a, w.feePayerSig, false);
    var e2 := PutBytes(0x12, w.feePayer, false) + e3;
    var m := MergeWeb3Tx(o, w);
    var m1 := o.(typedDataChainId := m.typedDataChainId);
    var m2 := m1.(feePayer := m.feePayer);
    NumberAccepted(Web3(o), 1, 0x08, w.typedDataChainId, e2);
    BytesAccepted(Web3(m1), 2, 0x12, w.feePayer, false, e3);
    assert e3 + [] == e3;
    BytesAccepted(Web3(m2), 3, 0x1a, w.feePayerSig, false, []);
  }

  lemma Web3TxRoundTrip(w: Web3Tx)
    requires |EncodeWeb3Tx(w)| < I63
    ensures Accepted(Web3(Web3Tx(0, [], [])), EncodeWeb3Tx(w)) == Some(Web3(w))
  {
    Web3TxMerges(Web3Tx(0, [], []), w);
  }

  lemma GenericRoundTrip(g: GenericMessage)
    requires |EncodeGeneric(g)| < I63
    ensures Decode(EMPTY_GENERIC, EncodeGeneric(g), 0) == Ok(Generic(g))
  {
    var e2 := PutBytes(0x12, g.data, false);
    var m1 := GenericMessage(g.header, []);
    BytesAccepted(EMPTY_GENERIC, 1, 0x0a, g.header, false, e2);
    assert e2 + [] == e2;
    BytesAccepted(Generic(m1), 2, 0x12, g.data, false, []);
    assert Accepted(EMPTY_GENERIC, EncodeGeneric(g)) == Some(Generic(g));
  }

  lemma PayloadAppends(o: seq<GenericMessage>, g: GenericMessage)
    requires |EncodeGeneric(g)| < I63
    ensures WithBytes(Data(o), 1, EncodeGeneric(g)) == Ok(Data(o + [g]))
  {
    GenericRoundTrip(g);
  }

  lemma FirstMessageAppends(o: seq<GenericMessage>, g: GenericMessage, rest: seq<Byte>)
    requires |PutBytes(0x0a, EncodeGeneric(g), true) + rest| < I63
    ensures Accepted(Data(o), PutBytes(0x0a, EncodeGeneric(g), true) + rest) == Accepted(Data(o + [g]), rest)
  {
    PayloadAppends(o, g);
    BytesAccepted(Data(o), 1, 0x0a, EncodeGeneric(g), true, rest);
  }

  /** Decoding an encoded message list appends the list, in order. */
  lemma {:induction false} DataAppends(o: seq<GenericMessage>, ms: seq<GenericMessage>)
    requires |EncodeData(ms)| < I63
    ensures Accepted(Data(o), EncodeData(ms)) == Some(Data(o + ms))
    decreases |ms|
  {
    if ms == [] {
      assert o + ms == o;
    } else {
      hide Accepted;
      FirstMessageAppends(o, ms[0], EncodeData(ms[1..]));
      DataAppends(o + [ms[0]], ms[1..]);
      assert o + [ms[0]] + ms[1..] == o + ms;
    }
  }

  /** Decoding two encodings one after the other yields both message lists, in order. */
  lemma DataConcatenates(xs: seq<GenericMessage>, ys: seq<GenericMessage>)
    requires |EncodeData(xs)| + |EncodeData(ys)| < I63
    ensures Accepted(Data([]), EncodeData(xs) + EncodeData(ys)) == Some(Data(xs + ys))
  {
    DataAppends([], xs);
    assert [] + xs == xs;
    DecodeConcat(Data([]), EncodeData(xs), EncodeData(ys));
    DataAppends(xs, ys);
  }

  // ---------- unknown fields ----------

  /** A field as it stands on the wire, tags and lengths in any spelling. */
  datatype WireField =
    | VarintField(tag: seq<Byte>, value: seq<Byte>)
    | Fixed64Field(tag: seq<Byte>, value: seq<Byte>)
    | LengthField(tag: seq<Byte>, length: seq<Byte>, payload: seq<Byte>)
    | GroupField(tag: seq<Byte>, body: Body, endTag: seq<Byte>)
    | Fixed32Field(tag: seq<Byte>, value: seq<Byte>)

  /** The fields inside a group. */
  datatype Body = NoFields | Fields(first: WireField, rest: Body)

  function FieldBytes(f: WireField): seq<Byte> {
    match f
    case VarintField(tag, value) => tag + value
    case Fixed64Field(tag, value) => tag + value
    case LengthField(tag, length, payload) => tag + (length + payload)
    case GroupField(tag, body, endTag) => tag + (BodyBytes(body) + endTag)
    case Fixed32Field(tag, value) => tag + value
  }

  function BodyBytes(b: Body): seq<Byte> {
    match b case NoFields => [] case Fields(f, rest) => FieldBytes(f) + BodyBytes(rest)
  }

  predicate IsTag(tag: seq<Byte>, wireType: nat) {
    WellFormedVarint(tag) && WireType(RawValue(tag)) == wireType
  }

  /** Well-formed to any nesting depth: every group is closed. */
  predicate WellFormed(f: WireField) {
    match f
    case VarintField(tag, value) => IsTag(tag, 0) && WellFormedVarint(value)
    case Fixed64Field(tag, value) => IsTag(tag, 1) && |value| == 8
    case LengthField(tag, length, payload) =>
      IsTag(tag, 2) && WellFormedVarint(length) && RawValue(length) % U64 == |payload|
    case GroupField(tag, body, endTag) => IsTag(tag, 3) && WellFormedBody(body) && IsTag(endTag, 4)
    case Fixed32Field(tag, value) => IsTag(tag, 5) && |value| == 4
  }

  predicate WellFormedBody(b: Body) {
    match b case NoFields => true case Fields(f, rest) => WellFormed(f) && WellFormedBody(rest)
  }

  /** Outcome of skipping one byte string, by position and depth of open groups. */
  type Skipper = (nat, nat) -> Skipped

  /** `s` takes the turns of the skip loop on `data`. */
  ghost predicate TakesTurns(s: Skipper, data: seq<Byte>) {
    forall i: nat, depth: nat {:trigger SkipOne(data, 0, i, depth)} ::
      i < |data| && SkipOne(data, 0, i, depth).Jump? ==>
        s(i, depth) == SkipAfter(s, SkipOne(data, 0, i, depth).next, SkipOne(data, 0, i, depth).depth)
  }

  /** Where skipping stands once the field ending at `next` is behind. */
  function SkipAfter(s: Skipper, next: nat, depth: nat): Skipped {
    if depth == 0 then Done(next) else s(next, depth)
  }

  /** Wherever the bytes `v` stand, skipping from their first byte goes on after their last. */
  ghost predicate Passes(s: Skipper, data: seq<Byte>, v: seq<Byte>) {
    forall i: nat, depth: nat {:trigger StandsAt(data, i, v), s(i, depth)} ::
      StandsAt(data, i, v) ==> s(i, depth) == SkipAfter(s, i + |v|, depth)
  }

  /** The same for a run of fields inside a group. */
  ghost predicate PassesInside(s: Skipper, data: seq<Byte>, v: seq<Byte>) {
    forall i: nat, depth: nat {:trigger StandsAt(data, i, v), s(i, depth)} ::
      StandsAt(data, i, v) && depth > 0 ==> s(i, depth) == s(i + |v|, depth)
  }

  ghost predicate Opens(s: Skipper, data: seq<Byte>, tag: seq<Byte>) {
    forall i: nat, depth: nat {:trigger StandsAt(data, i, tag), s(i, depth)} ::
      StandsAt(data, i, tag) ==> s(i, depth) == s(i + |tag|, depth + 1)
  }

  ghost predicate Closes(s: Skipper, data: seq<Byte>, tag: seq<Byte>) {
    forall i: nat, depth: nat {:trigger StandsAt(data, i, tag), s(i, depth)} ::
      StandsAt(data, i, tag) && depth > 0 ==> s(i, depth) == SkipAfter(s, i + |tag|, depth - 1)
  }

  /** A tag sends the loop to the end of its field, or one level deeper or shallower. */
  lemma TagTurn(data: seq<Byte>, i: nat, depth: nat, tag: seq<Byte>, wireType: nat, next: nat)
    requires IsTag(tag, wireType) && StandsAt(data, i, tag) && (wireType == 4 ==> depth > 0)
    requires SkipBody(data, 0, wireType, i + |tag|) == Done(next)
    ensures i < |data|
    ensures SkipOne(data, 0, i, depth)
            == Jump(next, if wireType == 3 then depth + 1 else if wireType == 4 then depth - 1 else depth)
  {
    hide GetVarint, SkipBody;
    GetVarintAt(data, i, tag);
  }

  /** The body of a field, where it stands behind its tag, is skipped as a whole. */
  ghost predicate BodyEnds(data: seq<Byte>, i: nat, tag: seq<Byte>, wireType: nat, body: seq<Byte>) {
    SkipBody(data, 0, wireType, i + |tag|) == Done(i + |tag| + |body|)
  }

  lemma VarintEnds(data: seq<Byte>, i: nat, tag: seq<Byte>, value: seq<Byte>)
    requires |data| < I63 && WellFormedVarint(value) && StandsAt(data, i, tag + value)
    ensures BodyEnds(data, i, tag, 0, value)
  {
    StandsSplit(data, i, tag, value);
    GetVarintAt(data, i + |tag|, value);
  }

  lemma FixedEnds(data: seq<Byte>, i: nat, tag: seq<Byte>, wireType: nat, value: seq<Byte>)
    requires |data| < I63 && StandsAt(data, i, tag + value)
    requires (wireType == 1 && |value| == 8) || (wireType == 5 && |value| == 4)
    ensures BodyEnds(data, i, tag, wireType, value)
  {
  }

  lemma LengthEnds(data: seq<Byte>, i: nat, tag: seq<Byte>, length: seq<Byte>, payload: seq<Byte>)
    requires |data| < I63 && StandsAt(data, i, tag + (length + payload))
    requires WellFormedVarint(length) && RawValue(length) % U64 == |payload|
    ensures BodyEnds(data, i, tag, 2, length + payload)
  {
    StandsSplit(data, i, tag, length + payload);
    StandsSplit(data, i + |tag|, length, payload);
    GetVarintAt(data, i + |tag|, length);
  }

  lemma PlainTurn(s: Skipper, data: seq<Byte>, i: nat, depth: nat, tag: seq<Byte>, wireType: nat, body: seq<Byte>)
    requires TakesTurns(s, data) && IsTag(tag, wireType) && wireType != 3 && wireType != 4
    requires StandsAt(data, i, tag + body) && BodyEnds(data, i, tag, wireType, body)
    ensures s(i, depth) == SkipAfter(s, i + |tag + body|, depth)
  {
    StandsSplit(data, i, tag, body);
    TagTurn(data, i, depth, tag, wireType, i + |tag| + |body|);
  }

  /** Everywhere `tag + body` stands, the body ends where it should. */
  lemma PlainPasses(s: Skipper, data: seq<Byte>, tag: seq<Byte>, wireType: nat, body: seq<Byte>)
    requires TakesTurns(s, data) && IsTag(tag, wireType) && wireType != 3 && wireType != 4
    requires forall i: nat {:trigger StandsAt(data, i, tag + body)} ::
               StandsAt(data, i, tag + body) ==> BodyEnds(data, i, tag, wireType, body)
    ensures Passes(s, data, tag + body)
  {
    forall i: nat, depth: nat | StandsAt(data, i, tag + body)
      ensures s(i, depth) == SkipAfter(s, i + |tag + body|, depth)
    {
      PlainTurn(s, data, i, depth, tag, wireType, body);
    }
  }

  lemma VarintPasses(s: Skipper, data: seq<Byte>, tag: seq<Byte>, value: seq<Byte>)
    requires TakesTurns(s, data) && |data| < I63 && IsTag(tag, 0) && WellFormedVarint(value)
    ensures Passes(s, data, tag + value)
  {
    forall i: nat | StandsAt(data, i, tag + value) ensures BodyEnds(data, i, tag, 0, value) {
      VarintEnds(data, i, tag, value);
    }
    PlainPasses(s, data, tag, 0, value);
  }

  lemma FixedPasses(s: Skipper, data: seq<Byte>, tag: seq<Byte>, wireType: nat, value: seq<Byte>)
    requires TakesTurns(s, data) && |data| < I63 && IsTag(tag, wireType)
    requires (wireType == 1 && |value| == 8) || (wireType == 5 && |value| == 4)
    ensures Passes(s, data, tag + value)
  {
    forall i: nat | StandsAt(data, i, tag + value) ensures BodyEnds(data, i, tag, wireType, value) {
      FixedEnds(data, i, tag, wireType, value);
    }
    PlainPasses(s, data, tag, wireType, value);
  }

  lemma LengthPasses(s: Skipper, data: seq<Byte>, tag: seq<Byte>, length: seq<Byte>, payload: seq<Byte>)
    requires TakesTurns(s, data) && |data| < I63 && IsTag(tag, 2)
    requires WellFormedVarint(length) && RawValue(length) % U64 == |payload|
    ensures Passes(s, data, tag + (length + payload))
  {
    forall i: nat | StandsAt(data, i, tag + (length + payload)) ensures BodyEnds(data, i, tag, 2, length + payload) {
      LengthEnds(data, i, tag, length, payload);
    }
    PlainPasses(s, data, tag, 2, length + payload);
  }

  lemma GroupOpens(s: Skipper, data: seq<Byte>, tag: seq<Byte>)
    requires TakesTurns(s, data) && |data| < I63 && IsTag(tag, 3)
    ensures Opens(s, data, tag)
  {
    forall i: nat, depth: nat | StandsAt(data, i, tag) ensures s(i, depth) == s(i + |tag|, depth + 1) {
      TagTurn(data, i, depth, tag, 3, i + |tag|);
    }
  }

  lemma GroupCloses(s: Skipper, data: seq<Byte>, tag: seq<Byte>)
    requires TakesTurns(s, data) && |data| < I63 && IsTag(tag, 4)
    ensures Closes(s, data, tag)
  {
    forall i: nat, depth: nat | StandsAt(data, i, tag) && depth > 0
      ensures s(i, depth) == SkipAfter(s, i + |tag|, depth - 1)
    {
      TagTurn(data, i, depth, tag, 4, i + |tag|);
    }
  }

  lemma GroupPasses(s: Skipper, data: seq<Byte>, tag: seq<Byte>, body: seq<Byte>, endTag: seq<Byte>)
    requires Opens(s, data, tag) && PassesInside(s, data, body) && Closes(s, data, endTag)
    ensures Passes(s, data, tag + (body + endTag))
  {
    hide StandsAt;
    forall i: nat, depth: nat | StandsAt(data, i, tag + (body + endTag))
      ensures s(i, depth) == SkipAfter(s, i + |tag + (body + endTag)|, depth)
    {
      StandsSplit(data, i, tag, body + endTag);
      StandsSplit(data, i + |tag|, body, endTag);
      assert s(i, depth) == s(i + |tag|, depth + 1) == s(i + |tag| + |body|, depth + 1);
    }
  }

  lemma RunPasses(s: Skipper, data: seq<Byte>, v: seq<Byte>, w: seq<Byte>)
    requires Passes(s, data, v) && PassesInside(s, data, w)
    ensures PassesInside(s, data, v + w)
  {
    forall i: nat, depth: nat | StandsAt(data, i, v + w) && depth > 0
      ensures s(i, depth) == s(i + |v + w|, depth)
    {
      StandsSplit(data, i, v, w);
      assert s(i, depth) == s(i + |v|, depth);
    }
  }

  /** Skipping moves over exactly the bytes of a well-formed field, at any depth of nesting. */
  lemma {:induction false} FieldPasses(s: Skipper, data: seq<Byte>, f: WireField)
    requires TakesTurns(s, data) && |data| < I63 && WellFormed(f)
    ensures Passes(s, data, FieldBytes(f))
    decreases f
  {
    match f
    case VarintField(tag, value) => VarintPasses(s, data, tag, value);
    case Fixed64Field(tag, value) => FixedPasses(s, data, tag, 1, value);
    case LengthField(tag, length, payload) => LengthPasses(s, data, tag, length, payload);
    case GroupField(tag, body, endTag) =>
      GroupOpens(s, data, tag);
      BodyPasses(s, data, body);
      GroupCloses(s, data, endTag);
      GroupPasses(s, data, tag, BodyBytes(body), endTag);
    case Fixed32Field(tag, value) => FixedPasses(s, data, tag, 5, value);
  }

  lemma {:induction false} BodyPasses(s: Skipper, data: seq<Byte>, b: Body)
    requires TakesTurns(s, data) && |data| < I63 && WellFormedBody(b)
    ensures PassesInside(s, data, BodyBytes(b))
    decreases b
  {
    match b
    case NoFields =>
    case Fields(f, rest) =>
      FieldPasses(s, data, f);
      BodyPasses(s, data, rest);
      RunPasses(s, data, FieldBytes(f), BodyBytes(rest));
  }

  /** So skipping a field that stands first returns exactly its length. */
  lemma SkipReturnsLength(f: WireField, data: seq<Byte>)
    requires WellFormed(f) && |data| < I63 && StandsAt(data, 0, FieldBytes(f))
    ensures SkipFrom(data, 0, 0, 0) == Done(|FieldBytes(f)|)
  {
    var s: Skipper := (i: nat, depth: nat) => SkipFrom(data, 0, i, depth);
    assert TakesTurns(s, data);
    FieldPasses(s, data, f);
    assert s(0, 0) == Done(|FieldBytes(f)|);
  }

  /** The field number is legal and the message does not know it. */
  predicate IsUnknown(m: Msg, f: WireField) {
    var num := FieldNumber(RawValue(f.tag));
    num > 0 && !IsNumber(m, num) && !IsBytes(m, num)
  }

  lemma TagStandsFirst(f: WireField)
    ensures StandsAt(FieldBytes(f), 0, f.tag)
  {
  }

  lemma FieldIsUnknown(m: Msg, data: seq<Byte>, raw: nat, n: nat)
    requires data != [] && GetVarint(data, 0, 0) == Read(raw, n) && WireType(raw) != 4
    requires FieldNumber(raw) > 0 && !IsNumber(m, FieldNumber(raw)) && !IsBytes(m, FieldNumber(raw))
    ensures Field(m, data, 0) == UnknownField(m, data, 0)
  {
  }

  lemma UnknownFieldDecodes(m: Msg, f: WireField)
    requires WellFormed(f) && IsUnknown(m, f) && |FieldBytes(f)| < I63
    ensures Decode(m, FieldBytes(f), 0) == Ok(m)
  {
    var data := FieldBytes(f);
    assert StandsAt(data, 0, data);
    SkipReturnsLength(f, data);
    TagStandsFirst(f);
    GetVarintAt(data, 0, f.tag);
    FieldIsUnknown(m, data, RawValue(f.tag), |f.tag|);
    SingleField(m, data, m);
  }

  /**
    Inserting a well-formed unknown field at a field boundary, that is after any prefix that
    decodes on its own, changes neither acceptance nor the decoded message.
   */
  lemma UnknownFieldIgnored(m: Msg, a: seq<Byte>, f: WireField, b: seq<Byte>)
    requires WellFormed(f) && IsUnknown(m, f)
    requires Decode(m, a, 0).Ok? && |a| + |FieldBytes(f)| + |b| < I63
    ensures Accepted(m, a + FieldBytes(f) + b) == Accepted(m, a + b)
  {
    var m1, u := Decode(m, a, 0).msg, FieldBytes(f);
    var num := FieldNumber(RawValue(f.tag));
    assert IsNumber(m1, num) == IsNumber(m, num) && IsBytes(m1, num) == IsBytes(m, num);
    UnknownFieldDecodes(m1, f);
    DecodeConcat(m, a, u + b);
    assert a + u + b == a + (u + b);
    DecodeConcat(m1, u, b);
    DecodeConcat(m, a, b);
  }
}
