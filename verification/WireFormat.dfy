/** The emitted bytes against the Encoding specification itself: what varints, tags and
    records are as numbers, and what a reader that knows none of the fields makes of them. */
module WireFormat {
  import opened Bytes
  import opened ProtoWire
  import opened MessageCodec
  import opened TaskCodec

  // ---------- Base 128 varints ----------

  /** The number seven-bit groups stand for, least significant group first. */
  function GroupValue(s: seq<byte>): nat {
    if s == [] then 0 else s[0] % 128 + 128 * GroupValue(s[1..])
  }

  /** Every byte but the last has its continuation bit set. */
  predicate IsVarint(s: seq<byte>) {
    s != [] && (if |s| == 1 then s[0] < 128 else s[0] >= 128 && IsVarint(s[1..]))
  }

  /** What is emitted is a varint of the value, without a superfluous last group. */
  lemma {:induction false} VarintEmits(v: nat)
    ensures var b := AppendVarint(v);
      IsVarint(b) && GroupValue(b) == v && (|b| == 1 || b[|b| - 1] > 0)
  {
    if v >= 128 {
      VarintEmits(v / 128);
      var b := AppendVarint(v);
      assert b[1..] == AppendVarint(v / 128);
      assert b[|b| - 1] == b[1..][|b| - 2];
    } else {
      assert [v][1..] == [];
    }
  }

  lemma {:induction false} VarintFromReads(b: seq<byte>, i: nat, n: nat)
    requires i <= 9 && n <= |b|
    ensures (ConsumeVarintFrom(b, i).Got? && ConsumeVarintFrom(b, i).n == n)
      <==> IsVarint(b[..n]) && i + n <= 10 && (i + n == 10 ==> b[n - 1] < 2)
    ensures ConsumeVarintFrom(b, i).Got? && ConsumeVarintFrom(b, i).n == n ==>
      ConsumeVarintFrom(b, i).v == GroupValue(b[..n])
    decreases n
  {
    if n > 1 && i < 9 && b[0] >= 128 {
      VarintFromReads(b[1..], i + 1, n - 1);
      assert b[1..][..n - 1] == b[..n][1..];
      assert b[1..][n - 2] == b[n - 1] && b[..n][0] == b[0];
      hide Capacity;
    } else if n == 1 {
      assert b[..1] == [b[0]] && [b[0]][1..] == [];
    }
  }

  /** Exactly the varints of at most ten bytes whose tenth byte is at most 1 are read, and
      each as the number its groups stand for. */
  lemma VarintReadsIff(b: seq<byte>, n: nat)
    requires n <= |b|
    ensures (ConsumeVarint(b).Got? && ConsumeVarint(b).n == n)
      <==> IsVarint(b[..n]) && n <= 10 && (n == 10 ==> b[9] < 2)
    ensures ConsumeVarint(b).Got? && ConsumeVarint(b).n == n ==> ConsumeVarint(b).v == GroupValue(b[..n])
  {
    VarintFromReads(b, 0, n);
  }

  // ---------- Tags and records ----------

  /** A varint field is the varint of 8 * num and the value's; a string or record is the
      varint of 8 * num + 2, the length's, and the bytes. Zero values are left out. */
  lemma FieldForms(num: FieldNumber, v: uint64, s: ByteString)
    ensures Uint64Field(num, v) == if v == 0 then [] else AppendVarint(8 * num) + AppendVarint(v)
    ensures RecordField(num, s) == AppendVarint(8 * num + 2) + (AppendVarint(|s|) + s)
    ensures StringField(num, s) == if s == [] then [] else AppendVarint(8 * num + 2) + (AppendVarint(|s|) + s)
  {
  }

  lemma FirstTag(num: FieldNumber, typ: WireType, rest: seq<byte>)
    ensures ConsumeVarint(AppendVarint(8 * num + typ) + rest) == Got(8 * num + typ, |AppendVarint(8 * num + typ)|)
    ensures ConsumeTag(AppendVarint(8 * num + typ) + rest) == Got(Tag(num, typ), |AppendVarint(8 * num + typ)|)
  {
    VarintRoundTrip(8 * num + typ, rest);
    TagRoundTrip(num, typ, rest);
  }

  /** A tag is read exactly for the field numbers 1 to 2^31 - 1. */
  lemma TagReadsIff(x: uint64, rest: seq<byte>)
    ensures ConsumeTag(AppendVarint(x) + rest) ==
      if 8 <= x < 8 * 0x8000_0000 then Got(Tag(x / 8, x % 8), |AppendVarint(x)|) else Fail
  {
    VarintRoundTrip(x, rest);
    hide ConsumeVarint, AppendVarint;
  }

  /** Exactly a length varint and that many bytes are read as a byte string. */
  lemma BytesReadIff(b: seq<byte>, s: ByteString, n: nat)
    ensures ConsumeBytes(b) == Got(s, n) <==>
      var len := ConsumeVarint(b);
      len.Got? && len.v == |s| && n == len.n + |s| <= |b| && b[len.n..n] == s
  {
    var len := ConsumeVarint(b);
    if len.Got? && len.v <= |b| - len.n { assert b[len.n..][..len.v] == b[len.n..len.n + len.v]; }
    hide ConsumeVarint;
  }

  // ---------- A reader that does not know the fields ----------

  lemma TagThenValue(schema: Schema, num: FieldNumber, typ: WireType, rest: seq<byte>)
    requires num !in schema && IsValue(typ, rest)
    ensures IsUnknownField(schema, AppendVarint(8 * num + typ) + rest)
  {
    hide AppendVarint, ConsumeTag, ConsumeVarint, IsValue;
    FirstTag(num, typ, rest);
    var tag := AppendVarint(8 * num + typ);
    assert (tag + rest)[|tag|..] == rest;
  }

  lemma WholeValues(v: uint64, s: ByteString)
    ensures IsValue(0, AppendVarint(v)) && IsValue(2, AppendVarint(|s|) + s)
  {
    VarintRoundTrip(v, []);
    BytesRoundTrip(s, []);
    assert AppendVarint(v) + [] == AppendVarint(v) && AppendBytes(s) + [] == AppendBytes(s);
    hide AppendVarint, ConsumeVarint, ConsumeBytes;
  }

  lemma VarintFieldSkipped<M>(
      schema: Schema, assign: (M, int, FieldValue) -> Outcome<M>, num: FieldNumber, v: uint64, m: M)
    requires num !in schema
    ensures Decode(schema, assign, Uint64Field(num, v), m) == Outcome(m, None)
  {
    hide AppendVarint, Decode, Uint64Field, IsUnknownField, IsValue;
    FieldForms(num, v, []);
    DecodeNothing(schema, assign, m);
    if v != 0 {
      WholeValues(v, []);
      TagThenValue(schema, num, 0, AppendVarint(v));
      WholeSkipped(schema, assign, AppendVarint(8 * num + 0) + AppendVarint(v), m);
    }
  }

  lemma RecordSkipped<M>(
      schema: Schema, assign: (M, int, FieldValue) -> Outcome<M>, num: FieldNumber, s: ByteString, m: M)
    requires num !in schema
    ensures Decode(schema, assign, RecordField(num, s), m) == Outcome(m, None)
    ensures Decode(schema, assign, StringField(num, s), m) == Outcome(m, None)
  {
    hide AppendVarint, Decode, RecordField, StringField, IsUnknownField, IsValue;
    FieldForms(num, 0, s);
    DecodeNothing(schema, assign, m);
    WholeValues(0, s);
    TagThenValue(schema, num, 2, AppendVarint(|s|) + s);
    WholeSkipped(schema, assign, AppendVarint(8 * num + 2) + (AppendVarint(|s|) + s), m);
  }

  lemma WholeSkipped<M>(schema: Schema, assign: (M, int, FieldValue) -> Outcome<M>, u: seq<byte>, m: M)
    requires IsUnknownField(schema, u)
    ensures Decode(schema, assign, u, m) == Outcome(m, None)
  {
    DecodeNothing(schema, assign, m);
    UnknownFieldSplice(schema, assign, [], u, [], m);
    assert [] + u + [] == u;
    assert u[..0] + [] == [];
  }

  lemma SkippedConcat<M>(
      schema: Schema, assign: (M, int, FieldValue) -> Outcome<M>, a: seq<byte>, b: seq<byte>, m: M)
    requires Decode(schema, assign, a, m) == Outcome(m, None) && Decode(schema, assign, b, m) == Outcome(m, None)
    ensures Decode(schema, assign, a + b, m) == Outcome(m, None)
  {
    hide Decode;
    DecodeConcat(schema, assign, a, b, m);
  }

  /** Reading tags and wire types alone walks a whole encoded task to its end. */
  lemma TaskWalks<M>(assign: (M, int, FieldValue) -> Outcome<M>, t: Task, m: M)
    ensures Decode(map[], assign, EncodeTask(t), m) == Outcome(m, None)
  {
    hide Decode, Uint64Field, StringField, SignExtend;
    var f1, f2, f3 := Uint64Field(1, t.id), StringField(2, t.title), StringField(3, t.description);
    var f4, f5, f6 := StringField(4, t.creator), StringField(5, t.assignee), Uint64Field(6, SignExtend(t.status));
    VarintFieldSkipped(map[], assign, 1, t.id, m);
    RecordSkipped(map[], assign, 2, t.title, m);
    RecordSkipped(map[], assign, 3, t.description, m);
    RecordSkipped(map[], assign, 4, t.creator, m);
    RecordSkipped(map[], assign, 5, t.assignee, m);
    VarintFieldSkipped(map[], assign, 6, SignExtend(t.status), m);
    SkippedConcat(map[], assign, f1, f2, m);
    SkippedConcat(map[], assign, f1 + f2, f3, m);
    SkippedConcat(map[], assign, f1 + f2 + f3, f4, m);
    SkippedConcat(map[], assign, f1 + f2 + f3 + f4, f5, m);
    SkippedConcat(map[], assign, f1 + f2 + f3 + f4 + f5, f6, m);
  }

  /** So it does for every message. */
  lemma MessagesWalk<M>(
      assign: (M, int, FieldValue) -> Outcome<M>, c: MsgCreateTask, a: MsgAssignTask, k: MsgCompleteTask, m: M)
    ensures Decode(map[], assign, EncodeCreate(c), m) == Outcome(m, None)
    ensures Decode(map[], assign, EncodeAssign(a), m) == Outcome(m, None)
    ensures Decode(map[], assign, EncodeComplete(k), m) == Outcome(m, None)
  {
    hide Decode, Uint64Field, StringField;
    RecordSkipped(map[], assign, 1, c.creator, m);
    RecordSkipped(map[], assign, 2, c.title, m);
    RecordSkipped(map[], assign, 3, c.description, m);
    SkippedConcat(map[], assign, StringField(1, c.creator), StringField(2, c.title), m);
    SkippedConcat(map[], assign, StringField(1, c.creator) + StringField(2, c.title), StringField(3, c.description), m);
    RecordSkipped(map[], assign, 1, a.creator, m);
    VarintFieldSkipped(map[], assign, 2, a.taskId, m);
    RecordSkipped(map[], assign, 3, a.assignee, m);
    SkippedConcat(map[], assign, StringField(1, a.creator), Uint64Field(2, a.taskId), m);
    SkippedConcat(map[], assign, StringField(1, a.creator) + Uint64Field(2, a.taskId), StringField(3, a.assignee), m);
    RecordSkipped(map[], assign, 1, k.assignee, m);
    VarintFieldSkipped(map[], assign, 2, k.taskId, m);
    SkippedConcat(map[], assign, StringField(1, k.assignee), Uint64Field(2, k.taskId), m);
  }

  lemma {:induction false} RecordsWalk<M>(assign: (M, int, FieldValue) -> Outcome<M>, ts: seq<Task>, m: M)
    requires Encodable(ts)
    ensures Decode(map[], assign, EncodeTaskRecords(ts), m) == Outcome(m, None)
  {
    hide Decode, EncodeTask, RecordField;
    DecodeNothing(map[], assign, m);
    if ts != [] {
      var front, last := ts[..|ts| - 1], ts[|ts| - 1];
      RecordsWalk(assign, front, m);
      RecordSkipped(map[], assign, 1, EncodeTask(last), m);
      SkippedConcat(map[], assign, EncodeTaskRecords(front), RecordField(1, EncodeTask(last)), m);
    }
  }

  lemma GenesisWalks<M>(assign: (M, int, FieldValue) -> Outcome<M>, gs: GenesisState, m: M)
    requires Encodable(gs.tasks)
    ensures Decode(map[], assign, EncodeGenesis(gs), m) == Outcome(m, None)
  {
    hide Decode, EncodeTaskRecords, Uint64Field;
    RecordsWalk(assign, gs.tasks, m);
    VarintFieldSkipped(map[], assign, 2, gs.nextTaskId, m);
    SkippedConcat(map[], assign, EncodeTaskRecords(gs.tasks), Uint64Field(2, gs.nextTaskId), m);
  }

  // ---------- Which number is which field ----------

  /** How a field is read is decided by its number alone; the wire type its tag announces
      counts only for unknown numbers. */
  lemma FieldReads(schema: Schema, u: seq<byte>)
    ensures var t, h := ConsumeTag(u), ReadField(schema, u);
      if t.Fail? then h == Bad(BadTag)
      else if t.v.num !in schema then h.Skipped? || h == Bad(InvalidField)
      else if schema[t.v.num] == VarintKind then
        match ConsumeVarint(u[t.n..])
        case Fail => h == Bad(BadVarint)
        case Got(v, k) => h == Known(t.v.num, Num(v), t.n + k)
      else
        match ConsumeBytes(u[t.n..])
        case Fail => h == Bad(BadBytes)
        case Got(s, k) => h == Known(t.v.num, Str(s), t.n + k)
  {
    hide ConsumeTag, ConsumeVarint, ConsumeBytes;
  }

  /** One more whole field of a known number sets that field of each request message. */
  lemma CreateLastOneWins(a: seq<byte>, u: seq<byte>, num: int, val: FieldValue, m: MsgCreateTask)
    requires DecodeCreate(a, m).err.None? && ReadField(CREATE_SCHEMA, u) == Known(num, val, |u|)
    ensures var m' := DecodeCreate(a, m).m; var r := DecodeCreate(a + u, m);
      && r.err.None? && 1 <= num <= 3 && val.Str?
      && (num == 1 ==> r.m == m'.(creator := val.s))
      && (num == 2 ==> r.m == m'.(title := val.s))
      && (num == 3 ==> r.m == m'.(description := val.s))
  {
    hide Decode;
    KnownKind(CREATE_SCHEMA, u);
    FieldAppended(CREATE_SCHEMA, AssignCreateField, a, u, num, val, m);
    hide ReadField;
  }

  lemma AssignLastOneWins(a: seq<byte>, u: seq<byte>, num: int, val: FieldValue, m: MsgAssignTask)
    requires DecodeAssign(a, m).err.None? && ReadField(ASSIGN_SCHEMA, u) == Known(num, val, |u|)
    ensures var m' := DecodeAssign(a, m).m; var r := DecodeAssign(a + u, m);
      && r.err.None? && 1 <= num <= 3
      && (num == 1 ==> val.Str? && r.m == m'.(creator := val.s))
      && (num == 2 ==> val.Num? && r.m == m'.(taskId := val.v))
      && (num == 3 ==> val.Str? && r.m == m'.(assignee := val.s))
  {
    hide Decode;
    KnownKind(ASSIGN_SCHEMA, u);
    FieldAppended(ASSIGN_SCHEMA, AssignAssignField, a, u, num, val, m);
    hide ReadField;
  }

  lemma CompleteLastOneWins(a: seq<byte>, u: seq<byte>, num: int, val: FieldValue, m: MsgCompleteTask)
    requires DecodeComplete(a, m).err.None? && ReadField(COMPLETE_SCHEMA, u) == Known(num, val, |u|)
    ensures var m' := DecodeComplete(a, m).m; var r := DecodeComplete(a + u, m);
      && r.err.None? && 1 <= num <= 2
      && (num == 1 ==> val.Str? && r.m == m'.(assignee := val.s))
      && (num == 2 ==> val.Num? && r.m == m'.(taskId := val.v))
  {
    hide Decode;
    KnownKind(COMPLETE_SCHEMA, u);
    FieldAppended(COMPLETE_SCHEMA, AssignCompleteField, a, u, num, val, m);
    hide ReadField;
  }

  /** A further genesis field sets the counter, or appends the task its bytes decode to; if
      they do not decode, nothing is appended and the error is theirs. */
  lemma GenesisLastOneWins(a: seq<byte>, u: seq<byte>, num: int, val: FieldValue, m: GenesisState)
    requires DecodeGenesis(a, m).err.None? && ReadField(GENESIS_SCHEMA, u) == Known(num, val, |u|)
    ensures var m' := DecodeGenesis(a, m).m; var r := DecodeGenesis(a + u, m);
      && 1 <= num <= 2
      && (num == 2 ==> val.Num? && r == Outcome(m'.(nextTaskId := val.v), None))
      && (num == 1 ==> val.Str?)
      && (num == 1 ==>
            var t := DecodeTask(val.s, ZERO_TASK);
            r == if t.err.None? then Outcome(m'.(tasks := m'.tasks + [t.m]), None) else Outcome(m', t.err))
  {
    hide Decode;
    KnownKind(GENESIS_SCHEMA, u);
    var m' := DecodeGenesis(a, m).m;
    DecodeConcat(GENESIS_SCHEMA, AssignGenesisField, a, u, m);
    DecodeStep(GENESIS_SCHEMA, AssignGenesisField, u, m');
    assert u[|u|..] == [];
    DecodeNothing(GENESIS_SCHEMA, AssignGenesisField, AssignGenesisField(m', num, val).m);
    hide ReadField;
  }

  // ---------- Status numbers ----------

  /** A status is written as itself modulo 2^64 and read back modulo 2^32. */
  lemma StatusNumbers(s: int32, v: uint64)
    ensures exists q :: SignExtend(s) == s + q * 0x1_0000_0000_0000_0000
    ensures exists q :: Truncate(v) == v + q * 0x1_0000_0000
  {
    assert SignExtend(s) == s + (if s < 0 then 1 else 0) * 0x1_0000_0000_0000_0000;
    var w := v % 0x1_0000_0000;
    assert v == 0x1_0000_0000 * (v / 0x1_0000_0000) + w;
    var q := (if w < 0x8000_0000 then 0 else -1) - v / 0x1_0000_0000;
    assert Truncate(v) == v + q * 0x1_0000_0000;
  }

  // ---------- Whole messages, byte by byte ----------

  lemma SmallFields(num: FieldNumber, v: uint64, s: ByteString)
    requires num < 16 && 0 < v < 128 && 0 < |s| < 128
    ensures Uint64Field(num, v) == [8 * num, v]
    ensures StringField(num, s) == [8 * num + 2, |s|] + s == RecordField(num, s)
  {
    FieldForms(num, v, s);
    hide Uint64Field, StringField, RecordField;
  }

  /** A task with every field, its status OPEN. */
  lemma TaskBytes()
    ensures EncodeTask(Task(100, [120], [121, 122], [97], [98], 1)) ==
      [0x08, 100] + [0x12, 1, 120] + [0x1a, 2, 121, 122] + [0x22, 1, 97] + [0x2a, 1, 98] + [0x30, 1]
  {
    SmallFields(1, 100, [1]);
    SmallFields(2, 1, [120]);
    SmallFields(3, 1, [121, 122]);
    SmallFields(4, 1, [97]);
    SmallFields(5, 1, [98]);
    SmallFields(6, 1, [1]);
    hide Uint64Field, StringField;
  }

  lemma MessageBytes()
    ensures EncodeCreate(MsgCreateTask([97], [120], [121])) == [0x0a, 1, 97] + [0x12, 1, 120] + [0x1a, 1, 121]
    ensures EncodeAssign(MsgAssignTask([97], 5, [98])) == [0x0a, 1, 97] + [0x10, 5] + [0x1a, 1, 98]
    ensures EncodeComplete(MsgCompleteTask([98], 5)) == [0x0a, 1, 98] + [0x10, 5]
  {
    SmallFields(1, 5, [97]);
    SmallFields(1, 5, [98]);
    SmallFields(2, 5, [120]);
    SmallFields(3, 5, [121]);
    SmallFields(3, 5, [98]);
    hide Uint64Field, StringField;
  }

  lemma ShortTask()
    ensures EncodeTask(Task(5, [], [], [], [], 0)) == [0x08, 5]
  {
    SmallFields(1, 5, [1]);
    hide Uint64Field;
    NoFields();
  }

  lemma NoFields()
    ensures forall num: FieldNumber :: StringField(num, []) == [] && Uint64Field(num, 0) == []
  {
  }

  /** A genesis with one task. */
  lemma GenesisBytes()
    ensures var gs := GenesisState([Task(5, [], [], [], [], 0)], 6);
      Encodable(gs.tasks) && EncodeGenesis(gs) == [0x0a, 2, 0x08, 5] + [0x10, 6]
  {
    var t := Task(5, [], [], [], [], 0);
    ShortTask();
    SmallFields(2, 6, [1]);
    SmallFields(1, 1, [0x08, 5]);
    hide Uint64Field, EncodeTask;
    assert [t][..0] == [] && EncodeTaskRecords([t]) == [] + RecordField(1, EncodeTask(t));
    hide RecordField;
  }
}
