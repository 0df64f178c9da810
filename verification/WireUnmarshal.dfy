/**
  The generated messages with their Marshal and Unmarshal methods.  Unmarshal is proved equal
  to the byte-level function Decode on every input, which includes that it ends and that
  no index leaves the data.
 */
module WireUnmarshal {
  import opened MachineWords
  import opened Options
  import opened WireVarint
  import opened WireMessages
  import opened WireEncoding
  import opened WireMarshal

  /** Addition of Go ints: wraps into the negative numbers. */
  function AddInt(x: int, y: int): int {
    if x + y >= I63 then x + y - U64 else x + y
  }

  /** Moves past a varint without keeping its value. */
  method PassVarint(data: seq<Byte>, start: nat) returns (r: Skipped)
    ensures r == match GetVarint(data, start, 0) case Fail(e) => NoSkip(e) case Read(_, n) => Done(n)
  {
    var i: nat, k: nat := start, 0;
    while true
      invariant k <= 10
      invariant GetVarint(data, start, 0).Fail? == GetVarint(data, i, k).Fail?
      invariant GetVarint(data, i, k).Fail? ==> GetVarint(data, start, 0) == GetVarint(data, i, k)
      invariant GetVarint(data, i, k).Read? ==> GetVarint(data, start, 0).next == GetVarint(data, i, k).next
      decreases 10 - k
    {
      if 7 * k >= 64 { return NoSkip(IntOverflow); }
      if i >= |data| { return NoSkip(UnexpectedEof); }
      i := i + 1;
      if data[i - 1] < 0x80 { return Done(i); }
      k := k + 1;
    }
  }

  /** Narrowing twice is narrowing once. */
  lemma LowBits(raw: nat)
    ensures raw % U64 % 8 == raw % 8 && raw % U64 % U64 == raw % U64 && raw % U32 % U32 == raw % U32
    ensures raw % U64 % U32 == raw % U32
  {
    var q, r := raw / U64, raw % U64;
    assert raw == (0x2000_0000_0000_0000 * q + r / 8) * 8 + r % 8;
    assert raw == (U32 * q + r / U32) * U32 + r % U32;
    DivModUnique(raw, 0x2000_0000_0000_0000 * q + r / 8, r % 8, 8);
    DivModUnique(raw, U32 * q + r / U32, r % U32, U32);
  }

  /** The body of one field inside the skip loop, up to the check for a negative index. */
  method PassBody(data: seq<Byte>, wireType: nat, at: nat) returns (r: Skipped)
    requires at <= |data| < I63
    ensures r == SkipBody(data, 0, wireType, at)
  {
    var i: int := at;
    match wireType {
      case 0 =>
        var v := PassVarint(data, at);
        if v.NoSkip? { return v; }
        i := v.next;
      case 1 =>
        i := AddInt(i, 8);
      case 2 =>
        var v := ReadVarint(data, at, U64);
        if v.Fail? { return NoSkip(v.err); }
        if v.raw >= I63 { return NoSkip(InvalidLength); }
        i := AddInt(v.next, v.raw);
      case 3 =>
      case 4 =>
      case 5 =>
        i := AddInt(i, 4);
      case _ =>
        return NoSkip(IllegalWireType);
    }
    if i < 0 { return NoSkip(InvalidLength); }
    r := Done(i);
  }

  /** skipIndexer, skipTxExt and skipTxResponse: the loop with the group depth counter. */
  method SkipField(data: seq<Byte>) returns (r: Skipped)
    requires |data| < I63
    ensures r == SkipFrom(data, 0, 0, 0)
  {
    hide GetVarint, SkipBody;
    var i: nat, depth: nat := 0, 0;
    while i < |data|
      invariant SkipFrom(data, 0, 0, 0) == SkipFrom(data, 0, i, depth)
      decreases if i < |data| then |data| - i else 0
    {
      var tag := ReadVarint(data, i, U64);
      if tag.Fail? { return NoSkip(tag.err); }
      LowBits(GetVarint(data, i, 0).raw);
      var wireType := tag.raw % 8;
      if wireType == 4 && depth == 0 { return NoSkip(UnexpectedEndOfGroup); }
      var body := PassBody(data, wireType, tag.next);
      if body.NoSkip? { return body; }
      if wireType == 3 { depth := depth + 1; } else if wireType == 4 { depth := depth - 1; }
      if depth == 0 { return body; }
      i := body.next;
    }
    r := NoSkip(UnexpectedEof);
  }

  lemma SkipOfRest(data: seq<Byte>, i: nat)
    requires i <= |data|
    ensures SkipFrom(data, i, i, 0) == SkipShifted(SkipFrom(data[i..], 0, 0, 0), i)
  {
    SkipMoved(data[..i], data[i..], 0, 0, 0);
    assert data[..i] + data[i..] == data;
  }

  /** skip on the slice that starts at `i`, as the switch calls it. */
  method SkipRest(data: seq<Byte>, i: nat) returns (r: Skipped)
    requires i <= |data| < I63
    ensures SkipFrom(data, i, i, 0) == SkipShifted(r, i)
    ensures r.Done? ==> r.next < I63
  {
    r := SkipField(data[i..]);
    SkipOfRest(data, i);
  }

  /** The default branch of every Unmarshal switch. */
  method PassUnknown(m: Msg, data: seq<Byte>, i: nat) returns (r: Stepped)
    requires i <= |data| < I63
    ensures r == UnknownField(m, data, i)
  {
    var skipped := SkipRest(data, i);
    if skipped.NoSkip? { return Stop(skipped.err); }
    var next := AddInt(i, skipped.next);
    if next < 0 { return Stop(InvalidLength); }
    if next > |data| { return Stop(UnexpectedEof); }
    r := Next(m, next);
  }

  datatype Tag = Tag(num: int, wireType: nat, next: nat) | BadTag(err: Error)

  function TagAt(data: seq<Byte>, i: nat): (r: Tag)
    ensures r.Tag? ==> r.num > 0 && i < r.next <= |data|
  {
    match GetVarint(data, i, 0)
    case Fail(e) => BadTag(e)
    case Read(raw, n) =>
      if WireType(raw) == 4 then BadTag(EndGroupForNonGroup)
      else if FieldNumber(raw) <= 0 then BadTag(IllegalTag)
      else Tag(FieldNumber(raw), WireType(raw), n)
  }

  /** The head of the loop body: the tag, and the two checks on it. */
  method ReadTag(data: seq<Byte>, i: nat) returns (r: Tag)
    ensures r == TagAt(data, i)
  {
    var wire := ReadVarint(data, i, U64);
    if wire.Fail? { return BadTag(wire.err); }
    LowBits(GetVarint(data, i, 0).raw);
    var num, wireType := AsInt32(wire.raw / 8), wire.raw % 8;
    if wireType == 4 { return BadTag(EndGroupForNonGroup); }
    if num <= 0 { return BadTag(IllegalTag); }
    r := Tag(num, wireType, wire.next);
  }

  /** The switch over field numbers. */
  function Switch(m: Msg, data: seq<Byte>, i: nat, t: Tag): Stepped
    requires t.Tag? ==> 0 < t.next
  {
    if t.BadTag? then Stop(t.err)
    else if IsNumber(m, t.num) then NumberField(m, t.num, t.wireType, data, t.next)
    else if IsBytes(m, t.num) then BytesField(m, t.num, t.wireType, data, t.next)
    else UnknownField(m, data, i)
  }

  lemma FieldByTag(m: Msg, data: seq<Byte>, i: nat)
    requires i < |data|
    ensures Field(m, data, i) == Switch(m, data, i, TagAt(data, i))
  {
  }

  /** A length-delimited payload, with the negative-length and end-of-data checks. */
  method ReadSpan(data: seq<Byte>, i: nat) returns (r: Span)
    requires |data| < I63
    ensures r == GetSpan(data, i)
  {
    var length := ReadVarint(data, i, U64);
    if length.Fail? { return NoSpan(length.err); }
    if length.raw >= I63 { return NoSpan(InvalidLength); }
    var post := AddInt(length.next, length.raw);
    if post < 0 { return NoSpan(InvalidLength); }
    if post > |data| { return NoSpan(UnexpectedEof); }
    r := Span(length.next, post);
  }

  /** What Unmarshal returned, next to what the byte-level function says. */
  ghost predicate Agrees(err: Option<Error>, m: Msg, d: Decoded) {
    match d case Ok(n) => err == None && m == n case Err(e) => err == Some(e)
  }

  class TxResultMessage {
    var m: TxResult

    constructor ()
      ensures m == ZERO_TX_RESULT
    {
      m := ZERO_TX_RESULT;
    }

    /** The back-to-front fill ends exactly at offset zero. */
    method Marshal() returns (b: seq<Byte>)
      ensures b == EncodeTxResult(m)
    {
      var size := SizeTxResult(m);
      var buf := new Byte[size](_ => 0);
      var n := MarshalTxResult(m, buf);
      b := buf[..n];
      assert buf[buf.Length - n..] == buf[..];
    }

    /** The number fields of the switch. */
    static method StoreNumber(t: TxResult, num: int, data: seq<Byte>, i: nat) returns (r: Stepped)
      requires 1 <= num <= 7
      ensures r == NumberField(Result(t), num, 0, data, i)
    {
      var modulus := if 2 <= num <= 4 then U32 else U64;
      var v := ReadVarint(data, i, modulus);
      if v.Fail? { return Stop(v.err); }
      LowBits(GetVarint(data, i, 0).raw);
      var t' :=
        match num
        case 1 => t.(height := AsInt64(v.raw))
        case 2 => t.(txIndex := v.raw)
        case 3 => t.(msgIndex := v.raw)
        case 4 => t.(ethTxIndex := AsInt32(v.raw))
        case 5 => t.(failed := v.raw != 0)
        case 6 => t.(gasUsed := v.raw)
        case _ => t.(cumulativeGasUsed := v.raw);
      r := Next(Result(t'), v.next);
    }

    method Unmarshal(data: seq<Byte>) returns (err: Option<Error>)
      requires |data| < I63
      modifies this
      ensures Agrees(err, Result(m), Decode(Result(old(m)), data, 0))
    {
      var i: nat := 0;
      while i < |data|
        invariant i <= |data|
        invariant Decode(Result(old(m)), data, 0) == Decode(Result(m), data, i)
      {
        FieldByTag(Result(m), data, i);
        var tag := ReadTag(data, i);
        if tag.BadTag? { return Some(tag.err); }
        var step;
        if 1 <= tag.num <= 7 {
          if tag.wireType != 0 { return Some(WrongWireType); }
          step := StoreNumber(m, tag.num, data, tag.next);
        } else {
          step := PassUnknown(Result(m), data, i);
        }
        if step.Stop? { return Some(step.err); }
        m := step.msg.result;
        i := step.at;
      }
      err := None;
    }
  }

  class Web3TxMessage {
    var m: Web3Tx

    constructor ()
      ensures m == Web3Tx(0, [], [])
    {
      m := Web3Tx(0, [], []);
    }

    method Marshal() returns (b: seq<Byte>)
      ensures b == EncodeWeb3Tx(m)
    {
      var size := SizeWeb3Tx(m);
      var buf := new Byte[size](_ => 0);
      var n := MarshalWeb3Tx(m, buf);
      b := buf[..n];
      assert buf[buf.Length - n..] == buf[..];
    }

    static method StoreBytes(w: Web3Tx, num: int, data: seq<Byte>, i: nat) returns (r: Stepped)
      requires (num == 2 || num == 3) && 0 < i && |data| < I63
      ensures r == BytesField(Web3(w), num, 2, data, i)
    {
      var span := ReadSpan(data, i);
      if span.NoSpan? { return Stop(span.err); }
      var payload := data[span.from..span.to];
      var w' := if num == 2 then w.(feePayer := payload) else w.(feePayerSig := payload);
      r := Next(Web3(w'), span.to);
    }

    static method StoreNumber(w: Web3Tx, data: seq<Byte>, i: nat) returns (r: Stepped)
      ensures r == NumberField(Web3(w), 1, 0, data, i)
    {
      var v := ReadVarint(data, i, U64);
      if v.Fail? { return Stop(v.err); }
      r := Next(Web3(w.(typedDataChainId := v.raw)), v.next);
    }

    method Unmarshal(data: seq<Byte>) returns (err: Option<Error>)
      requires |data| < I63
      modifies this
      ensures Agrees(err, Web3(m), Decode(Web3(old(m)), data, 0))
    {
      var i: nat := 0;
      while i < |data|
        invariant i <= |data|
        invariant Decode(Web3(old(m)), data, 0) == Decode(Web3(m), data, i)
      {
        FieldByTag(Web3(m), data, i);
        var tag := ReadTag(data, i);
        if tag.BadTag? { return Some(tag.err); }
        var step;
        if tag.num == 1 {
          if tag.wireType != 0 { return Some(WrongWireType); }
          step := StoreNumber(m, data, tag.next);
        } else if tag.num == 2 || tag.num == 3 {
          if tag.wireType != 2 { return Some(WrongWireType); }
          step := StoreBytes(m, tag.num, data, tag.next);
        } else {
          step := PassUnknown(Web3(m), data, i);
        }
        if step.Stop? { return Some(step.err); }
        m := step.msg.web3;
        i := step.at;
      }
      err := None;
    }
  }

  class GenericMessageMessage {
    var m: GenericMessage

    constructor ()
      ensures m == GenericMessage([], [])
    {
      m := GenericMessage([], []);
    }

    static method StoreBytes(g: GenericMessage, num: int, data: seq<Byte>, i: nat) returns (r: Stepped)
      requires (num == 1 || num == 2) && 0 < i && |data| < I63
      ensures r == BytesField(Generic(g), num, 2, data, i)
    {
      var span := ReadSpan(data, i);
      if span.NoSpan? { return Stop(span.err); }
      var payload := data[span.from..span.to];
      var g' := if num == 1 then g.(header := payload) else g.(data := payload);
      r := Next(Generic(g'), span.to);
    }

    method Unmarshal(data: seq<Byte>) returns (err: Option<Error>)
      requires |data| < I63
      modifies this
      ensures Agrees(err, Generic(m), Decode(Generic(old(m)), data, 0))
    {
      var i: nat := 0;
      while i < |data|
        invariant i <= |data|
        invariant Decode(Generic(old(m)), data, 0) == Decode(Generic(m), data, i)
      {
        FieldByTag(Generic(m), data, i);
        var tag := ReadTag(data, i);
        if tag.BadTag? { return Some(tag.err); }
        var step;
        if tag.num == 1 || tag.num == 2 {
          if tag.wireType != 2 { return Some(WrongWireType); }
          step := StoreBytes(m, tag.num, data, tag.next);
        } else {
          step := PassUnknown(Generic(m), data, i);
        }
        if step.Stop? { return Some(step.err); }
        m := step.msg.generic;
        i := step.at;
      }
      err := None;
    }
  }

  class TxResponseDataMessage {
    var messages: seq<GenericMessage>

    constructor ()
      ensures messages == []
    {
      messages := [];
    }

    method Marshal() returns (b: seq<Byte>)
      ensures b == EncodeData(messages)
    {
      var size := SizeData(messages);
      var buf := new Byte[size](_ => 0);
      var n := MarshalData(messages, buf);
      b := buf[..n];
      assert buf[buf.Length - n..] == buf[..];
    }

    /** Decodes the payload into a new element of the list. */
    static method StoreMessage(ms: seq<GenericMessage>, data: seq<Byte>, i: nat) returns (r: Stepped)
      requires 0 < i && |data| < I63
      ensures r == BytesField(Data(ms), 1, 2, data, i)
    {
      var span := ReadSpan(data, i);
      if span.NoSpan? { return Stop(span.err); }
      var g := new GenericMessageMessage();
      var err := g.Unmarshal(data[span.from..span.to]);
      if err.Some? { return Stop(err.value); }
      r := Next(Data(ms + [g.m]), span.to);
    }

    method Unmarshal(data: seq<Byte>) returns (err: Option<Error>)
      requires |data| < I63
      modifies this
      ensures Agrees(err, Data(messages), Decode(Data(old(messages)), data, 0))
    {
      var i: nat := 0;
      while i < |data|
        invariant i <= |data|
        invariant Decode(Data(old(messages)), data, 0) == Decode(Data(messages), data, i)
      {
        FieldByTag(Data(messages), data, i);
        var tag := ReadTag(data, i);
        if tag.BadTag? { return Some(tag.err); }
        var step;
        if tag.num == 1 {
          if tag.wireType != 2 { return Some(WrongWireType); }
          step := StoreMessage(messages, data, tag.next);
        } else {
          step := PassUnknown(Data(messages), data, i);
        }
        if step.Stop? { return Some(step.err); }
        messages := step.msg.messages;
        i := step.at;
      }
      err := None;
    }
  }
}
