/**
  The generated Marshal code: it sizes the buffer first and then fills it from the back, so
  that every length is known by the time it has to be written.  What already stands behind
  the write position is never disturbed.
 */
module WireMarshal {
  import opened MachineWords
  import opened WireVarint
  import opened WireMessages
  import opened WireEncoding

  lemma {:induction false} PutVarintNonEmpty(v: nat)
    ensures |PutVarint(v)| >= 1
  {
  }

  lemma Reassociate(a: seq<Byte>, b: seq<Byte>, c: seq<Byte>)
    ensures a + (b + c) == (a + b) + c
  {
  }

  lemma PutVarintStep(v: nat)
    ensures v < 0x80 ==> PutVarint(v) == [v]
    ensures v >= 0x80 ==> PutVarint(v) == [v % 0x80 + 0x80] + PutVarint(v / 0x80) && |PutVarint(v / 0x80)| > 0
  {
    PutVarintNonEmpty(v / 0x80);
  }

  /** Writes `v` so that it ends just before `offset`; returns where it starts. */
  method EncodeVarint(buf: array<Byte>, offset: nat, v: nat) returns (base: nat)
    requires |PutVarint(v)| <= offset <= buf.Length
    modifies buf
    ensures base + |PutVarint(v)| == offset
    ensures buf[base..] == PutVarint(v) + old(buf[offset..])
  {
    SovIsLength(v);
    base := offset - Sov(v);
    hide Sov, PutVarint;
    var at, rest := base, v;
    ghost var done: seq<Byte> := [];
    while rest >= 0x80
      invariant base <= at && at + |PutVarint(rest)| == offset
      invariant buf[base..at] == done && PutVarint(v) == done + PutVarint(rest)
      invariant buf[offset..] == old(buf[offset..])
    {
      PutVarintStep(rest);
      var group: Byte := rest % 0x80 + 0x80;
      buf[at] := group;
      Reassociate(done, [group], PutVarint(rest / 0x80));
      done := done + [group];
      rest := rest / 0x80;
      at := at + 1;
    }
    PutVarintStep(rest);
    buf[at] := rest;
    assert buf[base..] == buf[base..at] + [buf[at]] + buf[offset..];
  }

  method PutTag(buf: array<Byte>, end: nat, tag: Byte) returns (start: nat)
    requires 1 <= end <= buf.Length
    modifies buf
    ensures start == end - 1 && buf[start..] == [tag] + old(buf[end..])
  {
    start := end - 1;
    buf[start] := tag;
  }

  /** Copies `b` so that it ends just before `end`. */
  method CopyIn(buf: array<Byte>, end: nat, b: seq<Byte>) returns (start: nat)
    requires |b| <= end <= buf.Length
    modifies buf
    ensures start == end - |b| && buf[start..] == b + old(buf[end..])
  {
    start := end - |b|;
    for k := 0 to |b|
      invariant buf[start..start + k] == b[..k] && buf[end..] == old(buf[end..])
    {
      ghost var done := buf[start..start + k];
      buf[start + k] := b[k];
      assert buf[start..start + k + 1] == done + [b[k]];
    }
    assert buf[start..] == buf[start..end] + buf[end..];
  }

  method MarshalNumber(buf: array<Byte>, end: nat, tag: Byte, v: nat) returns (start: nat)
    requires |PutNumber(tag, v)| <= end <= buf.Length
    modifies buf
    ensures start + |PutNumber(tag, v)| == end
    ensures buf[start..] == PutNumber(tag, v) + old(buf[end..])
  {
    start := end;
    if v != 0 {
      start := EncodeVarint(buf, start, v);
      start := PutTag(buf, start, tag);
      Reassociate([tag], PutVarint(v), old(buf[end..]));
    }
  }

  /** Puts length and tag in front of the payload `b` that already stands at [at..end). */
  method MarshalLength(buf: array<Byte>, at: nat, size: nat, tag: Byte, ghost b: seq<Byte>, ghost tail: seq<Byte>)
    returns (start: nat)
    requires size == |b| && at <= buf.Length && buf[at..] == b + tail
    requires 1 + |PutVarint(|b|)| <= at
    modifies buf
    ensures start + |PutBytes(tag, b, true)| == at + size
    ensures buf[start..] == PutBytes(tag, b, true) + tail
  {
    start := EncodeVarint(buf, at, size);
    start := PutTag(buf, start, tag);
    Reassociate(PutVarint(size), b, tail);
    Reassociate([tag], PutVarint(size) + b, tail);
    Reassociate([tag], PutVarint(size), b);
  }

  method MarshalBytes(buf: array<Byte>, end: nat, tag: Byte, b: seq<Byte>) returns (start: nat)
    requires |PutBytes(tag, b, false)| <= end <= buf.Length
    modifies buf
    ensures start + |PutBytes(tag, b, false)| == end
    ensures buf[start..] == PutBytes(tag, b, false) + old(buf[end..])
  {
    start := end;
    if |b| > 0 {
      ghost var tail := buf[end..];
      start := CopyIn(buf, start, b);
      start := MarshalLength(buf, start, |b|, tag, b, tail);
    }
  }

  // ---------- sizes ----------

  /** What Size() counts for a number field: nothing for zero, else the tag and the varint. */
  method NumberSize(tag: Byte, v: nat) returns (n: nat)
    ensures n == |PutNumber(tag, v)|
  {
    n := 0;
    if v != 0 { n := n + 1 + Sov(v); }
    SovIsLength(v);
  }

  method BytesSize(tag: Byte, l: nat, ghost b: seq<Byte>) returns (n: nat)
    requires l == |b|
    ensures n == |PutBytes(tag, b, false)|
  {
    n := 0;
    if l > 0 { n := n + 1 + l + Sov(l); }
    SovIsLength(l);
  }

  /** Size() is computed apart from the encoding and comes out as its exact length. */
  method SizeTxResult(t: TxResult) returns (n: nat)
    ensures n == |EncodeTxResult(t)|
  {
    var height := NumberSize(0x08, AsUint64(t.height));
    var txIndex := NumberSize(0x10, t.txIndex);
    var msgIndex := NumberSize(0x18, t.msgIndex);
    var ethTxIndex := NumberSize(0x20, AsUint64(t.ethTxIndex));
    var failed := if t.failed then 2 else 0;
    var gasUsed := NumberSize(0x30, t.gasUsed);
    var cumulativeGasUsed := NumberSize(0x38, t.cumulativeGasUsed);
    n := height + txIndex + msgIndex + ethTxIndex + failed + gasUsed + cumulativeGasUsed;
  }

  method SizeWeb3Tx(w: Web3Tx) returns (n: nat)
    ensures n == |EncodeWeb3Tx(w)|
  {
    var chainId := NumberSize(0x08, w.typedDataChainId);
    var feePayer := BytesSize(0x12, |w.feePayer|, w.feePayer);
    var feePayerSig := BytesSize(0x1a, |w.feePayerSig|, w.feePayerSig);
    n := chainId + feePayer + feePayerSig;
  }

  method SizeGeneric(g: GenericMessage) returns (n: nat)
    ensures n == |EncodeGeneric(g)|
  {
    var header := BytesSize(0x0a, |g.header|, g.header);
    var data := BytesSize(0x12, |g.data|, g.data);
    n := header + data;
  }

  lemma {:induction false} EncodeDataSnoc(ms: seq<GenericMessage>, k: nat)
    requires k < |ms|
    ensures EncodeData(ms[..k + 1]) == EncodeData(ms[..k]) + PutBytes(0x0a, EncodeGeneric(ms[k]), true)
    decreases k
  {
    hide PutBytes, EncodeGeneric;
    if k == 0 {
      assert ms[..1][1..] == [];
    } else {
      EncodeDataSnoc(ms[1..], k - 1);
      assert ms[..k + 1][1..] == ms[1..][..k] && ms[..k][1..] == ms[1..][..k - 1];
      Reassociate(PutBytes(0x0a, EncodeGeneric(ms[0]), true), EncodeData(ms[1..][..k - 1]),
                  PutBytes(0x0a, EncodeGeneric(ms[k]), true));
    }
  }

  method SizeData(ms: seq<GenericMessage>) returns (n: nat)
    ensures n == |EncodeData(ms)|
  {
    n := 0;
    for k := 0 to |ms|
      invariant n == |EncodeData(ms[..k])|
    {
      var l := SizeGeneric(ms[k]);
      n := n + 1 + l + Sov(l);
      SovIsLength(l);
      EncodeDataSnoc(ms, k);
    }
    assert ms[..|ms|] == ms;
  }

  // ---------- filling the buffer ----------

  method MarshalTxResultTail(t: TxResult, buf: array<Byte>) returns (i: nat)
    requires |EncodeTxResultTail(t)| <= buf.Length
    modifies buf
    ensures i + |EncodeTxResultTail(t)| == buf.Length
    ensures buf[i..] == EncodeTxResultTail(t)
  {
    i := MarshalNumber(buf, buf.Length, 0x38, t.cumulativeGasUsed);
    i := MarshalNumber(buf, i, 0x30, t.gasUsed);
    i := MarshalNumber(buf, i, 0x28, if t.failed then 1 else 0);
    i := MarshalNumber(buf, i, 0x20, AsUint64(t.ethTxIndex));
  }

  method MarshalTxResult(t: TxResult, buf: array<Byte>) returns (n: nat)
    requires |EncodeTxResult(t)| <= buf.Length
    modifies buf
    ensures n == |EncodeTxResult(t)| && buf[buf.Length - n..] == EncodeTxResult(t)
  {
    var i := MarshalTxResultTail(t, buf);
    i := MarshalNumber(buf, i, 0x18, t.msgIndex);
    i := MarshalNumber(buf, i, 0x10, t.txIndex);
    i := MarshalNumber(buf, i, 0x08, AsUint64(t.height));
    n := buf.Length - i;
  }

  method MarshalWeb3Tx(w: Web3Tx, buf: array<Byte>) returns (n: nat)
    requires |EncodeWeb3Tx(w)| <= buf.Length
    modifies buf
    ensures n == |EncodeWeb3Tx(w)| && buf[buf.Length - n..] == EncodeWeb3Tx(w)
  {
    var i := MarshalBytes(buf, buf.Length, 0x1a, w.feePayerSig);
    i := MarshalBytes(buf, i, 0x12, w.feePayer);
    i := MarshalNumber(buf, i, 0x08, w.typedDataChainId);
    n := buf.Length - i;
  }

  /** Marshals into the part of the buffer before `end`. */
  method MarshalGeneric(g: GenericMessage, buf: array<Byte>, end: nat) returns (n: nat)
    requires |EncodeGeneric(g)| <= end <= buf.Length
    modifies buf
    ensures n == |EncodeGeneric(g)| && buf[end - n..] == EncodeGeneric(g) + old(buf[end..])
  {
    var i := MarshalBytes(buf, end, 0x12, g.data);
    i := MarshalBytes(buf, i, 0x0a, g.header);
    Reassociate(PutBytes(0x0a, g.header, false), PutBytes(0x12, g.data, false), old(buf[end..]));
    n := end - i;
  }

  method MarshalData(ms: seq<GenericMessage>, buf: array<Byte>) returns (n: nat)
    requires |EncodeData(ms)| <= buf.Length
    modifies buf
    ensures n == |EncodeData(ms)| && buf[buf.Length - n..] == EncodeData(ms)
  {
    var i: nat := buf.Length;
    assert ms[..|ms|] == ms;
    for k := |ms| downto 0
      invariant i <= buf.Length && i + |EncodeData(ms[k..])| == buf.Length && buf[i..] == EncodeData(ms[k..])
      invariant |EncodeData(ms[..k])| <= i
    {
      ghost var payload, tail := EncodeGeneric(ms[k]), buf[i..];
      EncodeDataSnoc(ms, k);
      EncodeDataHead(ms, k);
      EncodeDataSplits(ms, k);
      var size := MarshalGeneric(ms[k], buf, i);
      i := MarshalLength(buf, i - size, size, 0x0a, payload, tail);
    }
    assert ms[0..] == ms;
    n := buf.Length - i;
  }

  lemma EncodeDataHead(ms: seq<GenericMessage>, k: nat)
    requires k < |ms|
    ensures EncodeData(ms[k..]) == PutBytes(0x0a, EncodeGeneric(ms[k]), true) + EncodeData(ms[k + 1..])
  {
    assert ms[k..][1..] == ms[k + 1..];
  }

  lemma EncodeDataSplits(ms: seq<GenericMessage>, k: nat)
    requires k < |ms|
    ensures |EncodeData(ms[..k + 1])|
            == |EncodeData(ms[..k])| + 1 + |EncodeGeneric(ms[k])| + |PutVarint(|EncodeGeneric(ms[k])|)|
  {
    EncodeDataSnoc(ms, k);
  }
}
