/**
  What the generated Unmarshal functions accept and produce, as functions over bytes, for the
  four messages TxResult, ExtensionOptionsWeb3Tx, TxResponseGenericMessage and TxResponseData.
  Indices are Go ints: every sum that would leave 63 bits is caught as a negative length.
 */
module WireMessages {
  import opened MachineWords
  import opened Options
  import opened WireVarint

  type Uint64 = x: int | 0 <= x < 0x1_0000_0000_0000_0000
  type Uint32 = x: int | 0 <= x < 0x1_0000_0000
  type Int64 = x: int | -0x8000_0000_0000_0000 <= x < 0x8000_0000_0000_0000
  type Int32 = x: int | -0x8000_0000 <= x < 0x8000_0000

  datatype TxResult = TxResult(
    height: Int64, txIndex: Uint32, msgIndex: Uint32, ethTxIndex: Int32,
    failed: bool, gasUsed: Uint64, cumulativeGasUsed: Uint64)

  /** ExtensionOptionsWeb3Tx; a Go string is its bytes. */
  datatype Web3Tx = Web3Tx(typedDataChainId: Uint64, feePayer: seq<Byte>, feePayerSig: seq<Byte>)

  datatype GenericMessage = GenericMessage(header: seq<Byte>, data: seq<Byte>)

  /** A message being decoded; `Data` is TxResponseData. */
  datatype Msg =
    | Result(result: TxResult)
    | Web3(web3: Web3Tx)
    | Generic(generic: GenericMessage)
    | Data(messages: seq<GenericMessage>)

  const EMPTY_GENERIC: Msg := Generic(GenericMessage([], []))

  predicate SameKind(m: Msg, n: Msg) {
    && (m.Result? <==> n.Result?) && (m.Web3? <==> n.Web3?)
    && (m.Generic? <==> n.Generic?) && (m.Data? <==> n.Data?)
  }

  // ---------- integer conversions ----------

  /** uint64(x) of a signed value. */
  function AsUint64(x: Int64): Uint64 { if x < 0 then x + 0x1_0000_0000_0000_0000 else x }

  function AsInt64(x: nat): Int64 {
    var y := x % U64;
    if y < 0x8000_0000_0000_0000 then y else y - 0x1_0000_0000_0000_0000
  }

  function AsInt32(x: nat): Int32 {
    var y := x % U32;
    if y < 0x8000_0000 then y else y - 0x1_0000_0000
  }

  /** int32(wire >> 3) */
  function FieldNumber(raw: nat): Int32 { AsInt32(raw % U64 / 8) }

  /** int(wire & 0x7) */
  function WireType(raw: nat): nat { raw % 8 }

  // ---------- skipping a field ----------

  datatype Skipped = Done(next: nat) | NoSkip(err: Error)

  /** Index after the body of one field of the given wire type, or after a group tag. */
  function SkipBody(data: seq<Byte>, base: nat, wireType: nat, i: nat): (r: Skipped)
    requires base <= i
    ensures r.Done? ==> i <= r.next < base + I63
  {
    var r :=
      match wireType
      case 0 => (match GetVarint(data, i, 0) case Fail(e) => NoSkip(e) case Read(_, n) => Done(n))
      case 1 => Done(i + 8)
      case 2 => (match GetVarint(data, i, 0)
                 case Fail(e) => NoSkip(e)
                 case Read(raw, n) => if raw % U64 >= I63 then NoSkip(InvalidLength) else Done(n + raw % U64))
      case 3 => Done(i)
      case 4 => Done(i)
      case 5 => Done(i + 4)
      case _ => NoSkip(IllegalWireType);
    if r.Done? && r.next - base >= I63 then NoSkip(InvalidLength) else r
  }

  /** One turn of the skip loop. */
  datatype Jump = Jump(next: nat, depth: nat) | NoJump(err: Error)

  function SkipOne(data: seq<Byte>, base: nat, i: nat, depth: nat): (r: Jump)
    requires base <= i < |data|
    ensures r.Jump? ==> i < r.next < base + I63
  {
    match GetVarint(data, i, 0)
    case Fail(e) => NoJump(e)
    case Read(raw, n) =>
      var wireType := WireType(raw);
      if wireType == 4 && depth == 0 then NoJump(UnexpectedEndOfGroup)
      else
        match SkipBody(data, base, wireType, n)
        case NoSkip(e) => NoJump(e)
        case Done(next) =>
          Jump(next, if wireType == 3 then depth + 1 else if wireType == 4 then depth - 1 else depth)
  }

  /** skipIndexer on data[base..], standing at `i` inside `depth` open groups. */
  function SkipFrom(data: seq<Byte>, base: nat, i: nat, depth: nat): (r: Skipped)
    requires base <= i
    ensures r.Done? ==> i < r.next < base + I63
    decreases if i < |data| then |data| - i else 0
  {
    if i >= |data| then NoSkip(UnexpectedEof)
    else
      match SkipOne(data, base, i, depth)
      case NoJump(e) => NoSkip(e)
      case Jump(next, depth') => if depth' == 0 then Done(next) else SkipFrom(data, base, next, depth')
  }

  // ---------- decoding ----------

  /** A length-delimited payload data[from..to]. */
  datatype Span = Span(from: nat, to: nat) | NoSpan(err: Error)

  function GetSpan(data: seq<Byte>, i: nat): (r: Span)
    ensures r.Span? ==> i < r.from <= r.to <= |data|
  {
    match GetVarint(data, i, 0)
    case Fail(e) => NoSpan(e)
    case Read(raw, n) =>
      var length := raw % U64;
      if length >= I63 || n + length >= I63 then NoSpan(InvalidLength)
      else if n + length > |data| then NoSpan(UnexpectedEof)
      else Span(n, n + length)
  }

  predicate IsNumber(m: Msg, num: int) {
    match m
    case Result(_) => 1 <= num <= 7
    case Web3(_) => num == 1
    case Generic(_) => false
    case Data(_) => false
  }

  predicate IsBytes(m: Msg, num: int) {
    match m
    case Result(_) => false
    case Web3(_) => num == 2 || num == 3
    case Generic(_) => num == 1 || num == 2
    case Data(_) => num == 1
  }

  /** Stores a varint in a number field, cut to the field's type. */
  function WithNumber(m: Msg, num: int, raw: nat): (r: Msg)
    requires IsNumber(m, num)
    ensures SameKind(m, r)
  {
    match m
    case Web3(w) => Web3(w.(typedDataChainId := raw % U64))
    case Result(t) =>
      Result(match num
             case 1 => t.(height := AsInt64(raw))
             case 2 => t.(txIndex := raw % U32)
             case 3 => t.(msgIndex := raw % U32)
             case 4 => t.(ethTxIndex := AsInt32(raw))
             case 5 => t.(failed := raw % U64 != 0)
             case 6 => t.(gasUsed := raw % U64)
             case _ => t.(cumulativeGasUsed := raw % U64))
  }

  datatype Decoded = Ok(msg: Msg) | Err(err: Error)

  /** Stores a payload in a bytes field; a TxResponseData payload is itself decoded and appended. */
  function WithBytes(m: Msg, num: int, payload: seq<Byte>): (r: Decoded)
    requires IsBytes(m, num)
    ensures r.Ok? ==> SameKind(m, r.msg)
    decreases |payload|, |payload| + 1, 0
  {
    match m
    case Web3(w) => Ok(Web3(if num == 2 then w.(feePayer := payload) else w.(feePayerSig := payload)))
    case Generic(g) => Ok(Generic(if num == 1 then g.(header := payload) else g.(data := payload)))
    case Data(ms) =>
      match Decode(EMPTY_GENERIC, payload, 0)
      case Ok(n) => Ok(Data(ms + [n.generic]))
      case Err(e) => Err(e)
  }

  datatype Stepped = Next(msg: Msg, at: nat) | Stop(err: Error)

  function NumberField(m: Msg, num: int, wireType: nat, data: seq<Byte>, i: nat): (r: Stepped)
    requires IsNumber(m, num)
    ensures r.Next? ==> i < r.at <= |data| && SameKind(m, r.msg)
  {
    if wireType != 0 then Stop(WrongWireType)
    else
      match GetVarint(data, i, 0)
      case Fail(e) => Stop(e)
      case Read(value, next) => Next(WithNumber(m, num, value), next)
  }

  function BytesField(m: Msg, num: int, wireType: nat, data: seq<Byte>, i: nat): (r: Stepped)
    requires IsBytes(m, num) && 0 < i
    ensures r.Next? ==> i < r.at <= |data| && SameKind(m, r.msg)
    decreases |data|, 0, 0
  {
    if wireType != 2 then Stop(WrongWireType)
    else
      match GetSpan(data, i)
      case NoSpan(e) => Stop(e)
      case Span(from, to) =>
        match WithBytes(m, num, data[from..to])
        case Err(e) => Stop(e)
        case Ok(m') => Next(m', to)
  }

  function UnknownField(m: Msg, data: seq<Byte>, i: nat): (r: Stepped)
    ensures r.Next? ==> i < r.at <= |data| && r.msg == m
  {
    match SkipFrom(data, i, i, 0)
    case NoSkip(e) => Stop(e)
    case Done(next) =>
      if next >= I63 then Stop(InvalidLength)
      else if next > |data| then Stop(UnexpectedEof)
      else Next(m, next)
  }

  /** One turn of the Unmarshal loop: the field that starts at `i`. */
  function Field(m: Msg, data: seq<Byte>, i: nat): (r: Stepped)
    requires i < |data|
    ensures r.Next? ==> i < r.at <= |data| && SameKind(m, r.msg)
    decreases |data|, |data| - i, 0
  {
    match GetVarint(data, i, 0)
    case Fail(e) => Stop(e)
    case Read(raw, n) =>
      var num, wireType := FieldNumber(raw), WireType(raw);
      if wireType == 4 then Stop(EndGroupForNonGroup)
      else if num <= 0 then Stop(IllegalTag)
      else if IsNumber(m, num) then NumberField(m, num, wireType, data, n)
      else if IsBytes(m, num) then BytesField(m, num, wireType, data, n)
      else UnknownField(m, data, i)
  }

  /** Unmarshal from index `i` on, into a message that already holds `m`. */
  function Decode(m: Msg, data: seq<Byte>, i: nat): (r: Decoded)
    ensures r.Ok? ==> SameKind(m, r.msg)
    decreases |data|, if i <= |data| then |data| - i else 0, 1
  {
    if i >= |data| then Ok(m)
    else
      match Field(m, data, i)
      case Stop(e) => Err(e)
      case Next(m', at) => Decode(m', data, at)
  }

  // ---------- bytes before and after do not matter ----------

  lemma SkipOneLocal(a: seq<Byte>, b: seq<Byte>, base: nat, i: nat, depth: nat)
    requires base <= i < |a| && SkipOne(a, base, i, depth).Jump?
    ensures SkipOne(a + b, base, i, depth) == SkipOne(a, base, i, depth)
  {
    GetVarintLocal(a, b, i, 0);
    var Read(raw, n) := GetVarint(a, i, 0);
    if WireType(raw) == 0 || WireType(raw) == 2 { GetVarintLocal(a, b, n, 0); }
  }

  lemma {:induction false} SkipLocal(a: seq<Byte>, b: seq<Byte>, base: nat, i: nat, depth: nat)
    requires base <= i && SkipFrom(a, base, i, depth).Done?
    ensures SkipFrom(a + b, base, i, depth) == SkipFrom(a, base, i, depth)
    decreases if i < |a| then |a| - i else 0
  {
    SkipOneLocal(a, b, base, i, depth);
    var Jump(next, depth') := SkipOne(a, base, i, depth);
    if depth' > 0 { SkipLocal(a, b, base, next, depth'); }
  }

  function SkipShifted(s: Skipped, n: nat): Skipped {
    match s case Done(next) => Done(next + n) case NoSkip(e) => NoSkip(e)
  }

  function JumpShifted(s: Jump, n: nat): Jump {
    match s case Jump(next, depth) => Jump(next + n, depth) case NoJump(e) => NoJump(e)
  }

  lemma SkipBodyMoved(a: seq<Byte>, b: seq<Byte>, base: nat, wireType: nat, i: nat)
    requires base <= i
    ensures SkipBody(a + b, |a| + base, wireType, |a| + i) == SkipShifted(SkipBody(b, base, wireType, i), |a|)
  {
    GetVarintMoved(a, b, i, 0);
  }

  lemma SkipOneMoved(a: seq<Byte>, b: seq<Byte>, base: nat, i: nat, depth: nat)
    requires base <= i < |b|
    ensures SkipOne(a + b, |a| + base, |a| + i, depth) == JumpShifted(SkipOne(b, base, i, depth), |a|)
  {
    hide GetVarint, SkipBody;
    GetVarintMoved(a, b, i, 0);
    if GetVarint(b, i, 0).Read? {
      var Read(raw, n) := GetVarint(b, i, 0);
      SkipBodyMoved(a, b, base, WireType(raw), n);
    }
  }

  lemma {:induction false} SkipMoved(a: seq<Byte>, b: seq<Byte>, base: nat, i: nat, depth: nat)
    requires base <= i
    ensures SkipFrom(a + b, |a| + base, |a| + i, depth) == SkipShifted(SkipFrom(b, base, i, depth), |a|)
    decreases if i < |b| then |b| - i else 0
  {
    hide SkipOne;
    if i < |b| {
      SkipOneMoved(a, b, base, i, depth);
      match SkipOne(b, base, i, depth)
      case NoJump(_) =>
      case Jump(next, depth') => if depth' > 0 { SkipMoved(a, b, base, next, depth'); }
    }
  }

  lemma BytesFieldLocal(m: Msg, num: int, wireType: nat, a: seq<Byte>, b: seq<Byte>, i: nat)
    requires IsBytes(m, num) && 0 < i && BytesField(m, num, wireType, a, i).Next?
    ensures BytesField(m, num, wireType, a + b, i) == BytesField(m, num, wireType, a, i)
  {
    GetVarintLocal(a, b, i, 0);
    var Span(from, to) := GetSpan(a, i);
    assert (a + b)[from..to] == a[from..to];
  }

  lemma FieldLocal(m: Msg, a: seq<Byte>, b: seq<Byte>, i: nat)
    requires i < |a| && Field(m, a, i).Next?
    ensures Field(m, a + b, i) == Field(m, a, i)
  {
    GetVarintLocal(a, b, i, 0);
    var Read(raw, n) := GetVarint(a, i, 0);
    var num := FieldNumber(raw);
    if IsNumber(m, num) {
      GetVarintLocal(a, b, n, 0);
    } else if IsBytes(m, num) {
      BytesFieldLocal(m, num, WireType(raw), a, b, n);
    } else {
      SkipLocal(a, b, i, i, 0);
    }
  }

  /** The same outcome further on; the kind of error may differ. */
  predicate StepMoved(s: Stepped, t: Stepped, n: nat) {
    match s case Next(m, at) => t == Next(m, at + n) case Stop(_) => t.Stop?
  }

  lemma BytesFieldMoved(m: Msg, num: int, wireType: nat, a: seq<Byte>, b: seq<Byte>, i: nat)
    requires IsBytes(m, num) && 0 < i && |a| + |b| < I63
    ensures StepMoved(BytesField(m, num, wireType, b, i), BytesField(m, num, wireType, a + b, |a| + i), |a|)
  {
    hide GetVarint;
    GetVarintMoved(a, b, i, 0);
    if GetSpan(b, i).Span? {
      var Span(from, to) := GetSpan(b, i);
      assert (a + b)[|a| + from..|a| + to] == b[from..to];
    }
  }

  lemma UnknownFieldMoved(m: Msg, a: seq<Byte>, b: seq<Byte>, i: nat)
    requires |a| + |b| < I63
    ensures StepMoved(UnknownField(m, b, i), UnknownField(m, a + b, |a| + i), |a|)
  {
    SkipMoved(a, b, i, i, 0);
  }

  lemma FieldMoved(m: Msg, a: seq<Byte>, b: seq<Byte>, i: nat)
    requires i < |b| && |a| + |b| < I63
    ensures StepMoved(Field(m, b, i), Field(m, a + b, |a| + i), |a|)
  {
    hide GetVarint, BytesField, UnknownField;
    GetVarintMoved(a, b, i, 0);
    if GetVarint(b, i, 0).Read? {
      var Read(raw, n) := GetVarint(b, i, 0);
      var num := FieldNumber(raw);
      if IsNumber(m, num) {
        GetVarintMoved(a, b, n, 0);
      } else if IsBytes(m, num) {
        BytesFieldMoved(m, num, WireType(raw), a, b, n);
      } else {
        UnknownFieldMoved(m, a, b, i);
      }
    }
  }

  lemma {:induction false} DecodeLocal(m: Msg, a: seq<Byte>, b: seq<Byte>, i: nat)
    requires i <= |a| && Decode(m, a, i).Ok?
    ensures Decode(m, a + b, i) == Decode(Decode(m, a, i).msg, a + b, |a|)
    decreases |a| - i
  {
    if i < |a| {
      FieldLocal(m, a, b, i);
      var Next(m', at) := Field(m, a, i);
      DecodeLocal(m', a, b, at);
    }
  }

  lemma {:induction false} DecodeMoved(m: Msg, a: seq<Byte>, b: seq<Byte>, i: nat)
    requires i <= |b| && |a| + |b| < I63
    ensures Decode(m, b, i).Ok? ==> Decode(m, a + b, |a| + i) == Decode(m, b, i)
    ensures Decode(m, b, i).Err? ==> Decode(m, a + b, |a| + i).Err?
    decreases |b| - i
  {
    if i < |b| {
      FieldMoved(m, a, b, i);
      if Field(m, b, i).Next? { DecodeMoved(Field(m, b, i).msg, a, b, Field(m, b, i).at); }
    }
  }

  /** The message a byte string decodes to, if it is accepted. */
  function Accepted(m: Msg, data: seq<Byte>): Option<Msg> {
    match Decode(m, data, 0) case Ok(n) => Some(n) case Err(_) => None
  }

  /**
    Merging: after an accepted prefix, decoding goes on with the rest as if it had been
    decoded on its own into the message the prefix left behind.
   */
  lemma DecodeConcat(m: Msg, a: seq<Byte>, b: seq<Byte>)
    requires Decode(m, a, 0).Ok? && |a| + |b| < I63
    ensures Accepted(m, a + b) == Accepted(Decode(m, a, 0).msg, b)
  {
    DecodeLocal(m, a, b, 0);
    DecodeMoved(Decode(m, a, 0).msg, a, b, 0);
  }
}
