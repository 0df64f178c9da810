/**
  Which byte strings Unmarshal accepts, said as a grammar: sequences of well-formed fields in
  which the known fields have the right wire type.  The decoded message is what storing the
  known fields in order leaves behind.
 */
module WireGrammar {
  import opened MachineWords
  import opened Options
  import opened WireVarint
  import opened WireMessages
  import opened WireEncoding
  import opened WireCanonical

  // ---------- the grammar ----------

  /** A field that may stand in a message of this type. */
  predicate Admissible(m: Msg, f: WireField) {
    var num := FieldNumber(RawValue(f.tag));
    && WellFormed(f) && num > 0
    && (IsNumber(m, num) ==> f.VarintField?)
    && (IsBytes(m, num) ==> f.LengthField? && (m.Data? ==> Accepted(EMPTY_GENERIC, f.payload).Some?))
  }

  /** What the field does to the message. */
  function Effect(m: Msg, f: WireField): (r: Msg)
    requires Admissible(m, f)
    ensures SameKind(m, r)
  {
    var num := FieldNumber(RawValue(f.tag));
    if IsNumber(m, num) then WithNumber(m, num, RawValue(f.value))
    else if IsBytes(m, num) then WithBytes(m, num, f.payload).msg
    else m
  }

  ghost predicate AllAdmissible(m: Msg, fs: seq<WireField>) {
    forall i :: 0 <= i < |fs| ==> Admissible(m, fs[i])
  }

  lemma SameAdmissible(m: Msg, n: Msg, fs: seq<WireField>)
    requires SameKind(m, n) && AllAdmissible(m, fs)
    ensures AllAdmissible(n, fs)
  {
    hide WellFormed, Accepted, RawValue;
    forall i | 0 <= i < |fs|
      ensures Admissible(n, fs[i])
    {
      assert Admissible(m, fs[i]);
    }
  }

  ghost function Effects(m: Msg, fs: seq<WireField>): Msg
    requires AllAdmissible(m, fs)
    decreases |fs|
  {
    if fs == [] then m
    else
      var n := Effect(m, fs[0]);
      SameAdmissible(m, n, fs[1..]);
      Effects(n, fs[1..])
  }

  // ---------- what is admissible is accepted ----------

  lemma TagReads(f: WireField)
    requires WellFormed(f)
    ensures FieldBytes(f) != [] && GetVarint(FieldBytes(f), 0, 0) == Read(RawValue(f.tag), |f.tag|)
    ensures WireType(RawValue(f.tag)) != 4
  {
    hide GetVarint, RawValue;
    TagStandsFirst(f);
    GetVarintAt(FieldBytes(f), 0, f.tag);
  }

  lemma NumberReads(m: Msg, f: WireField)
    requires Admissible(m, f) && IsNumber(m, FieldNumber(RawValue(f.tag)))
    ensures Decode(m, FieldBytes(f), 0) == Ok(Effect(m, f))
  {
    hide GetVarint, RawValue, WellFormedVarint;
    var data := FieldBytes(f);
    TagReads(f);
    assert StandsAt(data, |f.tag|, f.value);
    GetVarintAt(data, |f.tag|, f.value);
    SingleField(m, data, Effect(m, f));
  }

  lemma BytesRead(m: Msg, f: WireField)
    requires Admissible(m, f) && IsBytes(m, FieldNumber(RawValue(f.tag))) && |FieldBytes(f)| < I63
    ensures Decode(m, FieldBytes(f), 0) == Ok(Effect(m, f))
  {
    hide GetVarint, RawValue, WellFormedVarint;
    var data, from := FieldBytes(f), |f.tag| + |f.length|;
    TagReads(f);
    assert StandsAt(data, |f.tag|, f.length);
    GetVarintAt(data, |f.tag|, f.length);
    assert data[from..|data|] == f.payload;
    assert GetSpan(data, |f.tag|) == Span(from, |data|);
    SingleField(m, data, Effect(m, f));
  }

  lemma FieldDecodes(m: Msg, f: WireField)
    requires Admissible(m, f) && |FieldBytes(f)| < I63
    ensures Decode(m, FieldBytes(f), 0) == Ok(Effect(m, f))
  {
    var num := FieldNumber(RawValue(f.tag));
    if IsNumber(m, num) {
      NumberReads(m, f);
    } else if IsBytes(m, num) {
      BytesRead(m, f);
    } else {
      UnknownFieldDecodes(m, f);
    }
  }

  /** Fields that are admissible are accepted, and stored one after the other. */
  lemma {:induction false} EffectsDecode(m: Msg, fs: seq<WireField>)
    requires AllAdmissible(m, fs) && |FieldsBytes(fs)| < I63
    ensures Accepted(m, FieldsBytes(fs)) == Some(Effects(m, fs))
    decreases |fs|
  {
    if fs != [] {
      var n, rest := Effect(m, fs[0]), FieldsBytes(fs[1..]);
      SameAdmissible(m, n, fs[1..]);
      EffectsDecode(n, fs[1..]);
      FieldDecodes(m, fs[0]);
      hide Admissible, Effect, FieldBytes;
      DecodeConcat(m, FieldBytes(fs[0]), rest);
    }
  }

  // ---------- what is accepted can be read as fields ----------

  lemma {:induction false} SpelledVarint(data: seq<Byte>, i: nat, k: nat)
    requires GetVarint(data, i, k).Read?
    ensures var r := GetVarint(data, i, k);
            var v := data[i..r.next];
            && v != [] && |v| <= 10 - k && v[|v| - 1] < 0x80
            && (forall j :: 0 <= j < |v| - 1 ==> v[j] >= 0x80) && RawValue(v) == r.raw
    decreases 10 - k
  {
    var n := GetVarint(data, i, k).next;
    if data[i] >= 0x80 {
      SpelledVarint(data, i + 1, k + 1);
      assert data[i..n][1..] == data[i + 1..n];
    } else {
      assert data[i..n][1..] == [];
    }
  }

  /** Whatever is read as a varint is the bytes of one. */
  lemma VarintRead(data: seq<Byte>, i: nat)
    requires GetVarint(data, i, 0).Read?
    ensures var r := GetVarint(data, i, 0);
            WellFormedVarint(data[i..r.next]) && RawValue(data[i..r.next]) == r.raw
  {
    SpelledVarint(data, i, 0);
  }

  lemma Slices(data: seq<Byte>, i: nat, j: nat, k: nat)
    requires i <= j <= k <= |data|
    ensures data[i..j] + data[j..k] == data[i..k]
  {}

  /** A field that is not a group, skipped in one turn. */
  lemma PlainRead(data: seq<Byte>, i: nat, depth: nat) returns (f: WireField)
    requires i < |data| && SkipOne(data, 0, i, depth).Jump? && SkipOne(data, 0, i, depth).next <= |data|
    requires WireType(GetVarint(data, i, 0).raw) != 3 && WireType(GetVarint(data, i, 0).raw) != 4
    ensures WellFormed(f) && FieldBytes(f) == data[i..SkipOne(data, 0, i, depth).next]
    ensures f.tag == data[i..GetVarint(data, i, 0).next]
  {
    hide GetVarint, RawValue, WellFormedVarint;
    var j, n := SkipOne(data, 0, i, depth).next, GetVarint(data, i, 0).next;
    VarintRead(data, i);
    Slices(data, i, n, j);
    var tag := data[i..n];
    match WireType(GetVarint(data, i, 0).raw)
    case 0 =>
      VarintRead(data, n);
      f := VarintField(tag, data[n..j]);
    case 1 =>
      f := Fixed64Field(tag, data[n..j]);
    case 2 =>
      VarintRead(data, n);
      var from := GetVarint(data, n, 0).next;
      Slices(data, n, from, j);
      f := LengthField(tag, data[n..from], data[from..j]);
    case 5 =>
      f := Fixed32Field(tag, data[n..j]);
  }

  /** The rest of the innermost open group: the fields in it, and the tag that closes it at `mid`. */
  ghost predicate ClosesAt(data: seq<Byte>, i: nat, mid: nat, b: Body, endTag: seq<Byte>) {
    && i <= mid <= |data| && WellFormedBody(b) && IsTag(endTag, 4)
    && data[i..mid] == BodyBytes(b) + endTag
  }

  lemma ClosesFirst(data: seq<Byte>, i: nat, mid: nat)
    requires i < mid <= |data| && IsTag(data[i..mid], 4)
    ensures ClosesAt(data, i, mid, NoFields, data[i..mid])
  {
    assert [] + data[i..mid] == data[i..mid];
  }

  lemma ClosesLater(data: seq<Byte>, i: nat, j: nat, mid: nat, f: WireField, b: Body, endTag: seq<Byte>)
    requires i <= j <= |data| && WellFormed(f) && FieldBytes(f) == data[i..j] && ClosesAt(data, j, mid, b, endTag)
    ensures ClosesAt(data, i, mid, Fields(f, b), endTag)
  {
    hide WellFormed, FieldBytes;
    Slices(data, i, j, mid);
    assert FieldBytes(f) + (BodyBytes(b) + endTag) == FieldBytes(f) + BodyBytes(b) + endTag;
  }

  lemma GroupBytes(data: seq<Byte>, i: nat, j: nat, mid: nat, b: Body, endTag: seq<Byte>)
    requires i <= j <= |data| && IsTag(data[i..j], 3) && ClosesAt(data, j, mid, b, endTag)
    ensures var f := GroupField(data[i..j], b, endTag); WellFormed(f) && FieldBytes(f) == data[i..mid]
  {
    Slices(data, i, j, mid);
  }

  lemma TurnOf(data: seq<Byte>, i: nat, depth: nat)
    requires i < |data| && SkipOne(data, 0, i, depth).Jump?
    ensures GetVarint(data, i, 0).Read?
    ensures var wireType, jump := WireType(GetVarint(data, i, 0).raw), SkipOne(data, 0, i, depth);
            && jump.depth == (if wireType == 3 then depth + 1 else if wireType == 4 then depth - 1 else depth)
            && (wireType == 3 || wireType == 4 ==> jump.next == GetVarint(data, i, 0).next)
            && (wireType == 4 ==> depth > 0)
            && IsTag(data[i..GetVarint(data, i, 0).next], wireType)
  {
    hide GetVarint;
    VarintRead(data, i);
  }

  /**
    The skip loop counts open groups instead of nesting calls.  Where it comes to an end, the
    innermost group was closed on the way, and the loop went on from there one level up.
   */
  lemma {:induction false} GroupRead(data: seq<Byte>, i: nat, depth: nat)
    returns (b: Body, endTag: seq<Byte>, mid: nat)
    requires depth > 0 && SkipFrom(data, 0, i, depth).Done? && SkipFrom(data, 0, i, depth).next <= |data|
    ensures i < mid && ClosesAt(data, i, mid, b, endTag)
    ensures var next := SkipFrom(data, 0, i, depth).next;
            if depth == 1 then mid == next else SkipFrom(data, 0, mid, depth - 1) == Done(next)
    decreases |data| - i
  {
    hide GetVarint, SkipOne, ClosesAt, WellFormed;
    TurnOf(data, i, depth);
    var j, wireType := SkipOne(data, 0, i, depth).next, WireType(GetVarint(data, i, 0).raw);
    if wireType == 4 {
      b, endTag, mid := NoFields, data[i..j], j;
      ClosesFirst(data, i, j);
    } else if wireType == 3 {
      var inner, innerEnd, k := GroupRead(data, j, depth + 1);
      GroupBytes(data, i, j, k, inner, innerEnd);
      var rest;
      rest, endTag, mid := GroupRead(data, k, depth);
      b := Fields(GroupField(data[i..j], inner, innerEnd), rest);
      ClosesLater(data, i, k, mid, GroupField(data[i..j], inner, innerEnd), rest, endTag);
    } else {
      var f := PlainRead(data, i, depth);
      var rest;
      rest, endTag, mid := GroupRead(data, j, depth);
      b := Fields(f, rest);
      ClosesLater(data, i, j, mid, f, rest, endTag);
    }
  }

  /** Whatever is skipped as one field is a well-formed field. */
  lemma SkippedIsField(data: seq<Byte>) returns (f: WireField)
    requires SkipFrom(data, 0, 0, 0).Done? && SkipFrom(data, 0, 0, 0).next <= |data|
    ensures WellFormed(f) && FieldBytes(f) == data[..SkipFrom(data, 0, 0, 0).next]
    ensures GetVarint(data, 0, 0).Read? && f.tag == data[..GetVarint(data, 0, 0).next]
  {
    hide GetVarint, SkipOne, ClosesAt, WellFormed;
    var j := SkipOne(data, 0, 0, 0).next;
    TurnOf(data, 0, 0);
    if WireType(GetVarint(data, 0, 0).raw) == 3 {
      var b, endTag, mid := GroupRead(data, j, 1);
      GroupBytes(data, 0, j, mid, b, endTag);
      f := GroupField(data[..j], b, endTag);
    } else {
      f := PlainRead(data, 0, 0);
    }
  }

  lemma NumberRead(m: Msg, data: seq<Byte>, n: nat, at: nat) returns (f: WireField)
    requires n <= at <= |data| && WellFormedVarint(data[..n]) && WireType(RawValue(data[..n])) == 0
    requires IsNumber(m, FieldNumber(RawValue(data[..n]))) && FieldNumber(RawValue(data[..n])) > 0
    requires GetVarint(data, n, 0).Read? && GetVarint(data, n, 0).next == at
    ensures Admissible(m, f) && FieldBytes(f) == data[..at]
    ensures Effect(m, f) == WithNumber(m, FieldNumber(RawValue(data[..n])), GetVarint(data, n, 0).raw)
  {
    hide GetVarint, RawValue, WellFormedVarint;
    VarintRead(data, n);
    Slices(data, 0, n, at);
    f := VarintField(data[..n], data[n..at]);
  }

  lemma PayloadRead(m: Msg, data: seq<Byte>, n: nat, from: nat, to: nat) returns (f: WireField)
    requires 0 < n <= |data| && WellFormedVarint(data[..n]) && WireType(RawValue(data[..n])) == 2
    requires IsBytes(m, FieldNumber(RawValue(data[..n]))) && FieldNumber(RawValue(data[..n])) > 0
    requires GetSpan(data, n) == Span(from, to)
    requires WithBytes(m, FieldNumber(RawValue(data[..n])), data[from..to]).Ok?
    ensures Admissible(m, f) && FieldBytes(f) == data[..to]
    ensures Ok(Effect(m, f)) == WithBytes(m, FieldNumber(RawValue(data[..n])), data[from..to])
  {
    hide GetVarint, RawValue, WellFormedVarint;
    VarintRead(data, n);
    Slices(data, n, from, to);
    Slices(data, 0, n, to);
    f := LengthField(data[..n], data[n..from], data[from..to]);
  }

  /** Whatever one turn of the Unmarshal loop accepts is an admissible field. */
  lemma FieldRead(m: Msg, data: seq<Byte>) returns (f: WireField)
    requires data != [] && Field(m, data, 0).Next?
    ensures Admissible(m, f) && FieldBytes(f) == data[..Field(m, data, 0).at]
    ensures Effect(m, f) == Field(m, data, 0).msg
  {
    hide GetVarint, RawValue, WellFormedVarint, FieldBytes, WellFormed, SkipFrom, GetSpan, WithBytes;
    var n, num := GetVarint(data, 0, 0).next, FieldNumber(GetVarint(data, 0, 0).raw);
    VarintRead(data, 0);
    if IsNumber(m, num) {
      f := NumberRead(m, data, n, Field(m, data, 0).at);
    } else if IsBytes(m, num) {
      var span := GetSpan(data, n);
      f := PayloadRead(m, data, n, span.from, span.to);
    } else {
      f := SkippedIsField(data);
    }
  }

  lemma FieldThenRest(m: Msg, data: seq<Byte>)
    requires data != [] && |data| < I63 && Accepted(m, data).Some?
    ensures Field(m, data, 0).Next?
    ensures Accepted(Field(m, data, 0).msg, data[Field(m, data, 0).at..]) == Accepted(m, data)
  {
    hide Field;
    var at := Field(m, data, 0).at;
    assert data == data[..at] + data[at..];
    DecodeMoved(Field(m, data, 0).msg, data[..at], data[at..], 0);
  }

  /** Whatever is accepted can be read as admissible fields, and they have the effect of decoding it. */
  lemma {:induction false} FieldsRead(m: Msg, data: seq<Byte>) returns (fs: seq<WireField>)
    requires Accepted(m, data).Some? && |data| < I63
    ensures AllAdmissible(m, fs) && FieldsBytes(fs) == data && Some(Effects(m, fs)) == Accepted(m, data)
    decreases |data|
  {
    if data == [] {
      fs := [];
    } else {
      FieldThenRest(m, data);
      hide Accepted, Admissible, Effect, FieldBytes, Field;
      var at := Field(m, data, 0).at;
      var f := FieldRead(m, data);
      var n := Effect(m, f);
      var rest := FieldsRead(n, data[at..]);
      SameAdmissible(n, m, rest);
      fs := [f] + rest;
      assert fs[1..] == rest;
      assert data[..at] + data[at..] == data;
    }
  }

  /**
    Unmarshal accepts exactly the sequences of admissible fields, and decodes them to what
    storing the known ones in order leaves in the message.
   */
  lemma AcceptedIff(m: Msg, data: seq<Byte>, n: Msg)
    requires |data| < I63
    ensures Accepted(m, data) == Some(n) <==>
              exists fs :: AllAdmissible(m, fs) && FieldsBytes(fs) == data && Effects(m, fs) == n
  {
    if Accepted(m, data) == Some(n) { var fs := FieldsRead(m, data); }
    if fs :| AllAdmissible(m, fs) && FieldsBytes(fs) == data && Effects(m, fs) == n {
      EffectsDecode(m, fs);
    }
  }
}
