/** Decoding of a message as a run of fields, shared by every message type: a schema
    says how each known field number is read, and `assign` stores a read value. */
module MessageCodec {
  import opened Bytes
  import opened ProtoWire

  datatype Kind = VarintKind | BytesKind

  datatype FieldValue = Num(v: uint64) | Str(s: ByteString)

  datatype DecodeError = BadTag | BadVarint | BadBytes | InvalidField

  /** The receiver after a decode, and the error that stopped it, if any.
      Fields assigned before the error stay assigned. */
  datatype Outcome<+M> = Outcome(m: M, err: Option<DecodeError>)

  type Schema = map<int, Kind>

  /** One field at the head of the input. */
  datatype Head =
    | Bad(e: DecodeError)
    | Known(num: int, val: FieldValue, n: nat)
    | Skipped(n: nat)

  /** Known numbers are read by the schema alone; the wire type matters only when skipping. */
  function ReadField(schema: Schema, b: seq<byte>): (h: Head)
    ensures !h.Bad? ==> 1 <= h.n <= |b|
    ensures h.Known? ==> h.num in schema && (h.val.Num? <==> schema[h.num] == VarintKind)
  {
    match ConsumeTag(b)
    case Fail => Bad(BadTag)
    case Got(tag, n) =>
      if tag.num !in schema then
        match SkipField(b[n..], tag.typ)
        case None => Bad(InvalidField)
        case Some(k) => Skipped(n + k)
      else if schema[tag.num] == VarintKind then
        match ConsumeVarint(b[n..])
        case Fail => Bad(BadVarint)
        case Got(v, k) => Known(tag.num, Num(v), n + k)
      else
        match ConsumeBytes(b[n..])
        case Fail => Bad(BadBytes)
        case Got(s, k) => Known(tag.num, Str(s), n + k)
  }

  /** The receiver after one field. */
  function ApplyField<M>(assign: (M, int, FieldValue) -> Outcome<M>, h: Head, m: M): (r: Outcome<M>)
    ensures h.Bad? ==> r.err.Some?
  {
    match h
    case Bad(e) => Outcome(m, Some(e))
    case Skipped(_) => Outcome(m, None)
    case Known(num, val, _) => assign(m, num, val)
  }

  function Decode<M>(schema: Schema, assign: (M, int, FieldValue) -> Outcome<M>, b: seq<byte>, m: M): Outcome<M>
    decreases |b|
  {
    if b == [] then Outcome(m, None)
    else
      var h := ReadField(schema, b);
      var r := ApplyField(assign, h, m);
      if r.err.Some? then r else Decode(schema, assign, b[h.n..], r.m)
  }

  lemma DecodeNothing<M>(schema: Schema, assign: (M, int, FieldValue) -> Outcome<M>, m: M)
    ensures Decode(schema, assign, [], m) == Outcome(m, None)
  {
  }

  lemma DecodeStep<M>(schema: Schema, assign: (M, int, FieldValue) -> Outcome<M>, b: seq<byte>, m: M)
    requires b != []
    ensures var h := ReadField(schema, b);
      var r := ApplyField(assign, h, m);
      Decode(schema, assign, b, m) == if r.err.Some? then r else Decode(schema, assign, b[h.n..], r.m)
  {
  }

  lemma ReadFieldExtend(schema: Schema, a: seq<byte>, b: seq<byte>)
    requires !ReadField(schema, a).Bad?
    ensures ReadField(schema, a + b) == ReadField(schema, a)
  {
    hide ConsumeTag, ConsumeVarint, ConsumeBytes, SkipField;
    TagExtend(a, b);
    var t := ConsumeTag(a);
    var rest := a[t.n..];
    assert (a + b)[t.n..] == rest + b;
    if t.v.num !in schema {
      SkipExtend(rest, t.v.typ, b);
    } else if schema[t.v.num] == VarintKind {
      VarintExtend(rest, b);
    } else {
      BytesExtend(rest, b);
    }
  }

  /** Bytes after a field that was read do not change the step it makes. */
  lemma DecodeStepExtend<M>(
      schema: Schema, assign: (M, int, FieldValue) -> Outcome<M>, a: seq<byte>, b: seq<byte>, m: M)
    requires a != [] && ApplyField(assign, ReadField(schema, a), m).err.None?
    ensures var h := ReadField(schema, a);
      !h.Bad? && Decode(schema, assign, a + b, m) == Decode(schema, assign, a[h.n..] + b, ApplyField(assign, h, m).m)
  {
    ReadFieldExtend(schema, a, b);
    var h := ReadField(schema, a);
    hide ReadField, Decode;
    DecodeStep(schema, assign, a + b, m);
    assert (a + b)[h.n..] == a[h.n..] + b;
  }

  /** Concatenation law: when `a` decodes, decoding `a + b` is decoding `b` on top of
      the result, errors in `b` included. */
  lemma {:induction false} DecodeConcat<M>(
      schema: Schema, assign: (M, int, FieldValue) -> Outcome<M>, a: seq<byte>, b: seq<byte>, m: M)
    requires Decode(schema, assign, a, m).err.None?
    ensures Decode(schema, assign, a + b, m) == Decode(schema, assign, b, Decode(schema, assign, a, m).m)
    decreases |a|
  {
    if a == [] {
      assert a + b == b;
    } else {
      hide ReadField, ApplyField, Decode;
      DecodeStep(schema, assign, a, m);
      DecodeStepExtend(schema, assign, a, b, m);
      var h := ReadField(schema, a);
      DecodeConcat(schema, assign, a[h.n..], b, ApplyField(assign, h, m).m);
    }
  }

  // ---------- Splicing unknown fields ----------

  /** `payload` is exactly one value of wire type `typ`, minimally encoded or not. */
  predicate IsValue(typ: int, payload: seq<byte>) {
    || (typ == 0 && ConsumeVarint(payload).Got? && ConsumeVarint(payload).n == |payload|)
    || (typ == 1 && |payload| == 8)
    || (typ == 2 && ConsumeBytes(payload).Got? && ConsumeBytes(payload).n == |payload|)
    || (typ == 5 && |payload| == 4)
  }

  /** `u` is one whole well-formed field, a tag and then a value, with a number the schema
      does not know. */
  predicate IsUnknownField(schema: Schema, u: seq<byte>) {
    var t := ConsumeTag(u);
    t.Got? && t.v.num !in schema && IsValue(t.v.typ, u[t.n..])
  }

  /** These are exactly the byte strings the decoder skips as one field. */
  lemma SkippedIffUnknownField(schema: Schema, u: seq<byte>)
    ensures ReadField(schema, u) == Skipped(|u|) <==> IsUnknownField(schema, u)
  {
    var t := ConsumeTag(u);
    hide ConsumeTag, ConsumeVarint, ConsumeBytes;
    if t.Got? { SkipRejectsGroups(u[t.n..], t.v.typ); }
  }

  /** Splicing a well-formed unknown field between fields changes nothing. */
  lemma UnknownFieldSplice<M>(
      schema: Schema, assign: (M, int, FieldValue) -> Outcome<M>, a: seq<byte>, u: seq<byte>, b: seq<byte>, m: M)
    requires Decode(schema, assign, a, m).err.None? && IsUnknownField(schema, u)
    ensures Decode(schema, assign, a + u + b, m) == Decode(schema, assign, a + b, m)
  {
    var mid := Decode(schema, assign, a, m).m;
    SkippedIffUnknownField(schema, u);
    hide Decode, ReadField, IsUnknownField;
    ReadFieldExtend(schema, u, b);
    DecodeStep(schema, assign, u + b, mid);
    assert (u + b)[|u|..] == b;
    DecodeConcat(schema, assign, a, u + b, m);
    DecodeConcat(schema, assign, a, b, m);
    assert a + u + b == a + (u + b);
  }

  /** An unknown group, even a properly closed one, makes the whole message fail: `g` is
      any bytes that begin with a tag of an unknown number and a wire type other than 0,
      1, 2 and 5, a group start among them. */
  lemma UnknownGroupFails<M>(
      schema: Schema, assign: (M, int, FieldValue) -> Outcome<M>, a: seq<byte>, g: seq<byte>, m: M)
    requires Decode(schema, assign, a, m).err.None?
    requires ConsumeTag(g).Got? && ConsumeTag(g).v.typ !in {0, 1, 2, 5} && ConsumeTag(g).v.num !in schema
    ensures Decode(schema, assign, a + g, m) == Outcome(Decode(schema, assign, a, m).m, Some(InvalidField))
  {
    var t := ConsumeTag(g);
    SkipRejectsGroups(g[t.n..], t.v.typ);
    assert ReadField(schema, g) == Bad(InvalidField);
    hide Decode, ReadField;
    DecodeStep(schema, assign, g, Decode(schema, assign, a, m).m);
    DecodeConcat(schema, assign, a, g, m);
  }

  /** A further whole known field, in whatever wire type, is assigned on top of what the
      bytes before it decoded to. */
  lemma FieldAppended<M>(
      schema: Schema, assign: (M, int, FieldValue) -> Outcome<M>, a: seq<byte>, u: seq<byte>,
      num: int, val: FieldValue, m: M)
    requires Decode(schema, assign, a, m).err.None? && ReadField(schema, u) == Known(num, val, |u|)
    requires assign(Decode(schema, assign, a, m).m, num, val).err.None?
    ensures Decode(schema, assign, a + u, m) == assign(Decode(schema, assign, a, m).m, num, val)
  {
    var mid := Decode(schema, assign, a, m).m;
    hide Decode, ReadField;
    DecodeConcat(schema, assign, a, u, m);
    DecodeStep(schema, assign, u, mid);
    assert u[|u|..] == [];
    DecodeNothing(schema, assign, assign(mid, num, val).m);
  }

  // ---------- Emitted fields ----------

  function Uint64Field(num: FieldNumber, v: uint64): seq<byte> {
    if v == 0 then [] else VarintRecord(num, v)
  }

  function StringField(num: FieldNumber, s: ByteString): seq<byte> {
    if s == [] then [] else RecordField(num, s)
  }

  function VarintRecord(num: FieldNumber, v: uint64): seq<byte> {
    AppendTag(num, VARINT) + AppendVarint(v)
  }

  /** A length-delimited record, emitted even when empty. */
  function RecordField(num: FieldNumber, s: ByteString): seq<byte> {
    AppendTag(num, BYTES) + AppendBytes(s)
  }

  function SizeUint64(num: FieldNumber, v: uint64): nat {
    if v == 0 then 0 else SizeTag(num) + SizeVarint(v)
  }

  function SizeString(num: FieldNumber, s: ByteString): nat {
    if s == [] then 0 else SizeTag(num) + SizeBytes(|s|)
  }

  lemma Uint64FieldSize(num: FieldNumber, v: uint64)
    ensures |Uint64Field(num, v)| == SizeUint64(num, v)
  {
    TagSize(num, VARINT);
    SizeVarintExact(v);
  }

  lemma RecordFieldSize(num: FieldNumber, s: ByteString)
    ensures |RecordField(num, s)| == SizeTag(num) + SizeBytes(|s|)
  {
    TagSize(num, BYTES);
    SizeVarintExact(|s|);
  }

  lemma StringFieldSize(num: FieldNumber, s: ByteString)
    ensures |StringField(num, s)| == SizeString(num, s)
  {
    RecordFieldSize(num, s);
  }

  lemma VarintRecordDecodes<M>(
      schema: Schema, assign: (M, int, FieldValue) -> Outcome<M>, num: FieldNumber, v: uint64, m: M)
    requires num in schema && schema[num] == VarintKind && assign(m, num, Num(v)).err.None?
    ensures Decode(schema, assign, VarintRecord(num, v), m) == Outcome(assign(m, num, Num(v)).m, None)
  {
    var tag, val := AppendTag(num, VARINT), AppendVarint(v);
    TagRoundTrip(num, VARINT, val);
    assert (tag + val)[|tag|..] == val == val + [];
    VarintRoundTrip(v, []);
    DecodeNothing(schema, assign, assign(m, num, Num(v)).m);
    assert (tag + val)[|tag| + |val|..] == [];
  }

  lemma RecordDecodes<M>(
      schema: Schema, assign: (M, int, FieldValue) -> Outcome<M>, num: FieldNumber, s: ByteString, m: M)
    requires num in schema && schema[num] == BytesKind && assign(m, num, Str(s)).err.None?
    ensures Decode(schema, assign, RecordField(num, s), m) == Outcome(assign(m, num, Str(s)).m, None)
  {
    var tag, val := AppendTag(num, BYTES), AppendBytes(s);
    TagRoundTrip(num, BYTES, val);
    assert (tag + val)[|tag|..] == val == val + [];
    BytesRoundTrip(s, []);
    DecodeNothing(schema, assign, assign(m, num, Str(s)).m);
    assert (tag + val)[|tag| + |val|..] == [];
  }

  lemma Uint64FieldDecodes<M>(
      schema: Schema, assign: (M, int, FieldValue) -> Outcome<M>, num: FieldNumber, v: uint64, m: M)
    requires num in schema && schema[num] == VarintKind && assign(m, num, Num(v)).err.None?
    requires v == 0 ==> assign(m, num, Num(0)).m == m
    ensures Decode(schema, assign, Uint64Field(num, v), m) == Outcome(assign(m, num, Num(v)).m, None)
  {
    if v != 0 { VarintRecordDecodes(schema, assign, num, v, m); }
  }

  lemma StringFieldDecodes<M>(
      schema: Schema, assign: (M, int, FieldValue) -> Outcome<M>, num: FieldNumber, s: ByteString, m: M)
    requires num in schema && schema[num] == BytesKind && assign(m, num, Str(s)).err.None?
    requires s == [] ==> assign(m, num, Str([])).m == m
    ensures Decode(schema, assign, StringField(num, s), m) == Outcome(assign(m, num, Str(s)).m, None)
  {
    if s != [] { RecordDecodes(schema, assign, num, s, m); }
  }
}
