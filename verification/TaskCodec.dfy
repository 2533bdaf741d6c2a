/** The task registry's records and messages as values, with the byte forms their
    hand-written codecs give them. */
module TaskCodec {
  import opened Bytes
  import opened ProtoWire
  import opened MessageCodec

  type int32 = x: int | -0x8000_0000 <= x < 0x8000_0000

  const STATUS_UNSPECIFIED: int32 := 0
  const STATUS_OPEN: int32 := 1
  const STATUS_ASSIGNED: int32 := 2
  const STATUS_COMPLETED: int32 := 3

  datatype Task = Task(
    id: uint64, title: ByteString, description: ByteString,
    creator: ByteString, assignee: ByteString, status: int32)

  datatype MsgCreateTask = MsgCreateTask(creator: ByteString, title: ByteString, description: ByteString)

  datatype MsgAssignTask = MsgAssignTask(creator: ByteString, taskId: uint64, assignee: ByteString)

  datatype MsgCompleteTask = MsgCompleteTask(assignee: ByteString, taskId: uint64)

  datatype GenesisState = GenesisState(tasks: seq<Task>, nextTaskId: uint64)

  const ZERO_TASK := Task(0, [], [], [], [], STATUS_UNSPECIFIED)
  const ZERO_CREATE := MsgCreateTask([], [], [])
  const ZERO_ASSIGN := MsgAssignTask([], 0, [])
  const ZERO_COMPLETE := MsgCompleteTask([], 0)
  const ZERO_GENESIS := GenesisState([], 0)

  // ---------- Status numbers ----------

  /** uint64(status): negative values are sign-extended. */
  function SignExtend(s: int32): uint64 {
    if s < 0 then s + TWO_64 else s
  }

  /** TaskStatus(v): the low 32 bits as a signed number. */
  function Truncate(v: uint64): int32 {
    var w := v % 0x1_0000_0000;
    if w < 0x8000_0000 then w else w - 0x1_0000_0000
  }

  lemma StatusRoundTrip(s: int32)
    ensures Truncate(SignExtend(s)) == s
  {
    if s < 0 {
      assert (s + TWO_64) % 0x1_0000_0000 == s + 0x1_0000_0000;
    }
  }

  // ---------- Task ----------

  const TASK_SCHEMA: Schema := map[1 := VarintKind, 2 := BytesKind, 3 := BytesKind,
                                   4 := BytesKind, 5 := BytesKind, 6 := VarintKind]

  function AssignTaskField(m: Task, num: int, val: FieldValue): Outcome<Task> {
    var m' :=
      match val
      case Num(v) => if num == 1 then m.(id := v) else m.(status := Truncate(v))
      case Str(s) =>
        if num == 2 then m.(title := s)
        else if num == 3 then m.(description := s)
        else if num == 4 then m.(creator := s)
        else m.(assignee := s);
    Outcome(m', None)
  }

  function DecodeTask(b: seq<byte>, m: Task): Outcome<Task> {
    Decode(TASK_SCHEMA, AssignTaskField, b, m)
  }

  function EncodeTask(t: Task): seq<byte> {
    Uint64Field(1, t.id) + StringField(2, t.title) + StringField(3, t.description) +
    StringField(4, t.creator) + StringField(5, t.assignee) + Uint64Field(6, SignExtend(t.status))
  }

  function SizeTask(t: Task): nat {
    SizeUint64(1, t.id) + SizeString(2, t.title) + SizeString(3, t.description) +
    SizeString(4, t.creator) + SizeString(5, t.assignee) + SizeUint64(6, SignExtend(t.status))
  }

  // ---------- Messages ----------

  const CREATE_SCHEMA: Schema := map[1 := BytesKind, 2 := BytesKind, 3 := BytesKind]

  function AssignCreateField(m: MsgCreateTask, num: int, val: FieldValue): Outcome<MsgCreateTask> {
    match val
    case Num(_) => Outcome(m, None)
    case Str(s) =>
      Outcome(if num == 1 then m.(creator := s) else if num == 2 then m.(title := s) else m.(description := s), None)
  }

  function DecodeCreate(b: seq<byte>, m: MsgCreateTask): Outcome<MsgCreateTask> {
    Decode(CREATE_SCHEMA, AssignCreateField, b, m)
  }

  function EncodeCreate(m: MsgCreateTask): seq<byte> {
    StringField(1, m.creator) + StringField(2, m.title) + StringField(3, m.description)
  }

  const ASSIGN_SCHEMA: Schema := map[1 := BytesKind, 2 := VarintKind, 3 := BytesKind]

  function AssignAssignField(m: MsgAssignTask, num: int, val: FieldValue): Outcome<MsgAssignTask> {
    match val
    case Num(v) => Outcome(m.(taskId := v), None)
    case Str(s) => Outcome(if num == 1 then m.(creator := s) else m.(assignee := s), None)
  }

  function DecodeAssign(b: seq<byte>, m: MsgAssignTask): Outcome<MsgAssignTask> {
    Decode(ASSIGN_SCHEMA, AssignAssignField, b, m)
  }

  function EncodeAssign(m: MsgAssignTask): seq<byte> {
    StringField(1, m.creator) + Uint64Field(2, m.taskId) + StringField(3, m.assignee)
  }

  const COMPLETE_SCHEMA: Schema := map[1 := BytesKind, 2 := VarintKind]

  function AssignCompleteField(m: MsgCompleteTask, num: int, val: FieldValue): Outcome<MsgCompleteTask> {
    match val
    case Num(v) => Outcome(m.(taskId := v), None)
    case Str(s) => Outcome(m.(assignee := s), None)
  }

  function DecodeComplete(b: seq<byte>, m: MsgCompleteTask): Outcome<MsgCompleteTask> {
    Decode(COMPLETE_SCHEMA, AssignCompleteField, b, m)
  }

  function EncodeComplete(m: MsgCompleteTask): seq<byte> {
    StringField(1, m.assignee) + Uint64Field(2, m.taskId)
  }

  // ---------- Genesis: nested repeated records ----------

  const GENESIS_SCHEMA: Schema := map[1 := BytesKind, 2 := VarintKind]

  function AssignGenesisField(m: GenesisState, num: int, val: FieldValue): Outcome<GenesisState> {
    match val
    case Num(v) => Outcome(m.(nextTaskId := v), None)
    case Str(s) =>
      var r := DecodeTask(s, ZERO_TASK);
      if r.err.Some? then Outcome(m, r.err) else Outcome(m.(tasks := m.tasks + [r.m]), None)
  }

  function DecodeGenesis(b: seq<byte>, m: GenesisState): Outcome<GenesisState> {
    Decode(GENESIS_SCHEMA, AssignGenesisField, b, m)
  }

  /** Each task's encoding is itself a Go byte slice. */
  predicate Encodable(ts: seq<Task>) {
    forall t :: t in ts ==> |EncodeTask(t)| < TWO_64
  }

  function EncodeTaskRecords(ts: seq<Task>): seq<byte>
    requires Encodable(ts)
  {
    if ts == [] then []
    else EncodeTaskRecords(ts[..|ts| - 1]) + RecordField(1, EncodeTask(ts[|ts| - 1]))
  }

  function EncodeGenesis(gs: GenesisState): seq<byte>
    requires Encodable(gs.tasks)
  {
    EncodeTaskRecords(gs.tasks) + Uint64Field(2, gs.nextTaskId)
  }

  function SizeTaskRecords(ts: seq<Task>): nat
  {
    if ts == [] then 0
    else SizeTaskRecords(ts[..|ts| - 1]) + SizeTag(1) + SizeBytes(SizeTask(ts[|ts| - 1]))
  }

  // ---------- Round trips ----------

  lemma TaskFrontDecodes(t: Task)
    ensures DecodeTask(Uint64Field(1, t.id) + StringField(2, t.title) + StringField(3, t.description), ZERO_TASK)
         == Outcome(Task(t.id, t.title, t.description, [], [], 0), None)
  {
    hide Decode, Uint64Field, StringField;
    var f1, f2, f3 := Uint64Field(1, t.id), StringField(2, t.title), StringField(3, t.description);
    var m1 := ZERO_TASK.(id := t.id);
    Uint64FieldDecodes(TASK_SCHEMA, AssignTaskField, 1, t.id, ZERO_TASK);
    StringFieldDecodes(TASK_SCHEMA, AssignTaskField, 2, t.title, m1);
    StringFieldDecodes(TASK_SCHEMA, AssignTaskField, 3, t.description, m1.(title := t.title));
    DecodeConcat(TASK_SCHEMA, AssignTaskField, f1, f2, ZERO_TASK);
    DecodeConcat(TASK_SCHEMA, AssignTaskField, f1 + f2, f3, ZERO_TASK);
  }

  lemma TaskBackDecodes(t: Task, m3: Task)
    requires m3 == Task(t.id, t.title, t.description, [], [], 0)
    ensures
      DecodeTask(StringField(4, t.creator) + StringField(5, t.assignee) + Uint64Field(6, SignExtend(t.status)), m3)
         == Outcome(t, None)
  {
    StatusRoundTrip(t.status);
    assert Truncate(0) == 0;
    hide Decode, Uint64Field, StringField, Truncate, SignExtend;
    var f4, f5, f6 := StringField(4, t.creator), StringField(5, t.assignee), Uint64Field(6, SignExtend(t.status));
    var m4 := m3.(creator := t.creator);
    StringFieldDecodes(TASK_SCHEMA, AssignTaskField, 4, t.creator, m3);
    StringFieldDecodes(TASK_SCHEMA, AssignTaskField, 5, t.assignee, m4);
    Uint64FieldDecodes(TASK_SCHEMA, AssignTaskField, 6, SignExtend(t.status), m4.(assignee := t.assignee));
    DecodeConcat(TASK_SCHEMA, AssignTaskField, f4, f5, m3);
    DecodeConcat(TASK_SCHEMA, AssignTaskField, f4 + f5, f6, m3);
  }

  /** Every task, with any id, any strings and any int32 status, decodes to itself. */
  lemma TaskRoundTrip(t: Task)
    ensures DecodeTask(EncodeTask(t), ZERO_TASK) == Outcome(t, None)
  {
    hide Decode, Uint64Field, StringField, SignExtend;
    var front := Uint64Field(1, t.id) + StringField(2, t.title) + StringField(3, t.description);
    var back := StringField(4, t.creator) + StringField(5, t.assignee) + Uint64Field(6, SignExtend(t.status));
    TaskFrontDecodes(t);
    TaskBackDecodes(t, Task(t.id, t.title, t.description, [], [], 0));
    DecodeConcat(TASK_SCHEMA, AssignTaskField, front, back, ZERO_TASK);
    assert EncodeTask(t) == front + back;
  }

  lemma CreateRoundTrip(m: MsgCreateTask)
    ensures DecodeCreate(EncodeCreate(m), ZERO_CREATE) == Outcome(m, None)
  {
    hide Decode, StringField;
    var f1, f2, f3 := StringField(1, m.creator), StringField(2, m.title), StringField(3, m.description);
    var m1 := ZERO_CREATE.(creator := m.creator);
    StringFieldDecodes(CREATE_SCHEMA, AssignCreateField, 1, m.creator, ZERO_CREATE);
    StringFieldDecodes(CREATE_SCHEMA, AssignCreateField, 2, m.title, m1);
    StringFieldDecodes(CREATE_SCHEMA, AssignCreateField, 3, m.description, m1.(title := m.title));
    DecodeConcat(CREATE_SCHEMA, AssignCreateField, f1, f2, ZERO_CREATE);
    DecodeConcat(CREATE_SCHEMA, AssignCreateField, f1 + f2, f3, ZERO_CREATE);
  }

  lemma AssignRoundTrip(m: MsgAssignTask)
    ensures DecodeAssign(EncodeAssign(m), ZERO_ASSIGN) == Outcome(m, None)
  {
    hide Decode, Uint64Field, StringField;
    var f1, f2, f3 := StringField(1, m.creator), Uint64Field(2, m.taskId), StringField(3, m.assignee);
    var m1 := ZERO_ASSIGN.(creator := m.creator);
    StringFieldDecodes(ASSIGN_SCHEMA, AssignAssignField, 1, m.creator, ZERO_ASSIGN);
    Uint64FieldDecodes(ASSIGN_SCHEMA, AssignAssignField, 2, m.taskId, m1);
    StringFieldDecodes(ASSIGN_SCHEMA, AssignAssignField, 3, m.assignee, m1.(taskId := m.taskId));
    DecodeConcat(ASSIGN_SCHEMA, AssignAssignField, f1, f2, ZERO_ASSIGN);
    DecodeConcat(ASSIGN_SCHEMA, AssignAssignField, f1 + f2, f3, ZERO_ASSIGN);
  }

  lemma CompleteRoundTrip(m: MsgCompleteTask)
    ensures DecodeComplete(EncodeComplete(m), ZERO_COMPLETE) == Outcome(m, None)
  {
    hide Decode, Uint64Field, StringField;
    var f1, f2 := StringField(1, m.assignee), Uint64Field(2, m.taskId);
    StringFieldDecodes(COMPLETE_SCHEMA, AssignCompleteField, 1, m.assignee, ZERO_COMPLETE);
    Uint64FieldDecodes(COMPLETE_SCHEMA, AssignCompleteField, 2, m.taskId, ZERO_COMPLETE.(assignee := m.assignee));
    DecodeConcat(COMPLETE_SCHEMA, AssignCompleteField, f1, f2, ZERO_COMPLETE);
  }

  lemma TaskRecordDecodes(t: Task, m: GenesisState)
    requires |EncodeTask(t)| < TWO_64
    ensures DecodeGenesis(RecordField(1, EncodeTask(t)), m) == Outcome(m.(tasks := m.tasks + [t]), None)
  {
    TaskRoundTrip(t);
    hide Decode, EncodeTask, RecordField;
    RecordDecodes(GENESIS_SCHEMA, AssignGenesisField, 1, EncodeTask(t), m);
  }

  /** Task records decode by appending to the tasks already there, in order; an
      all-zero task still contributes a record. */
  lemma {:induction false} TaskRecordsRoundTrip(ts: seq<Task>, m: GenesisState)
    requires Encodable(ts)
    ensures DecodeGenesis(EncodeTaskRecords(ts), m) == Outcome(m.(tasks := m.tasks + ts), None)
  {
    hide Decode, EncodeTask;
    if ts == [] {
      DecodeNothing(GENESIS_SCHEMA, AssignGenesisField, m);
      assert m.tasks + ts == m.tasks;
    } else {
      var front, last := ts[..|ts| - 1], ts[|ts| - 1];
      TaskRecordsRoundTrip(front, m);
      TaskRecordDecodes(last, m.(tasks := m.tasks + front));
      DecodeConcat(GENESIS_SCHEMA, AssignGenesisField, EncodeTaskRecords(front), RecordField(1, EncodeTask(last)), m);
      assert m.tasks + ts == m.tasks + front + [last];
    }
  }

  lemma GenesisCodecRoundTrip(gs: GenesisState)
    requires Encodable(gs.tasks)
    ensures DecodeGenesis(EncodeGenesis(gs), ZERO_GENESIS) == Outcome(gs, None)
  {
    hide Decode, Uint64Field, EncodeTaskRecords;
    TaskRecordsRoundTrip(gs.tasks, ZERO_GENESIS);
    assert ZERO_GENESIS.tasks + gs.tasks == gs.tasks;
    Uint64FieldDecodes(GENESIS_SCHEMA, AssignGenesisField, 2, gs.nextTaskId, GenesisState(gs.tasks, 0));
    DecodeConcat(
      GENESIS_SCHEMA, AssignGenesisField, EncodeTaskRecords(gs.tasks), Uint64Field(2, gs.nextTaskId), ZERO_GENESIS);
  }

  // ---------- Last one wins ----------

  /** After any decodable bytes, one more whole field of a known number sets exactly that
      field, whatever it was before; the wire type its tag announces plays no part. */
  lemma TaskLastOneWins(a: seq<byte>, u: seq<byte>, num: int, val: FieldValue, m: Task)
    requires DecodeTask(a, m).err.None? && ReadField(TASK_SCHEMA, u) == Known(num, val, |u|)
    ensures var m' := DecodeTask(a, m).m; var r := DecodeTask(a + u, m);
      && r.err.None? && 1 <= num <= 6
      && (num == 1 ==> val.Num? && r.m == m'.(id := val.v))
      && (num == 2 ==> val.Str? && r.m == m'.(title := val.s))
      && (num == 3 ==> val.Str? && r.m == m'.(description := val.s))
      && (num == 4 ==> val.Str? && r.m == m'.(creator := val.s))
      && (num == 5 ==> val.Str? && r.m == m'.(assignee := val.s))
      && (num == 6 ==> val.Num? && r.m == m'.(status := Truncate(val.v)))
  {
    hide Decode, Truncate;
    FieldAppended(TASK_SCHEMA, AssignTaskField, a, u, num, val, m);
    KnownKind(TASK_SCHEMA, u);
    hide ReadField;
  }

  lemma KnownKind(schema: Schema, u: seq<byte>)
    ensures var h := ReadField(schema, u);
      h.Known? ==> h.num in schema && (h.val.Num? <==> schema[h.num] == VarintKind)
  {
  }

  /** The wire type is ignored: the id may arrive under a length-delimited tag. */
  lemma WireTypeIgnored(typ: WireType, v: uint64)
    ensures DecodeTask(AppendTag(1, typ) + AppendVarint(v), ZERO_TASK) == Outcome(ZERO_TASK.(id := v), None)
  {
    var u := AppendTag(1, typ) + AppendVarint(v);
    TagRoundTrip(1, typ, AppendVarint(v));
    VarintRoundTrip(v, []);
    assert u[|AppendTag(1, typ)|..] == AppendVarint(v) == AppendVarint(v) + [];
    assert ReadField(TASK_SCHEMA, u) == Known(1, Num(v), |u|);
    hide Decode, ReadField;
    DecodeNothing(TASK_SCHEMA, AssignTaskField, ZERO_TASK);
    FieldAppended(TASK_SCHEMA, AssignTaskField, [], u, 1, Num(v), ZERO_TASK);
    assert [] + u == u;
  }

  // ---------- Sizes ----------

  lemma TaskSizeExact(t: Task)
    ensures SizeTask(t) == |EncodeTask(t)|
  {
    Uint64FieldSize(1, t.id);
    StringFieldSize(2, t.title);
    StringFieldSize(3, t.description);
    StringFieldSize(4, t.creator);
    StringFieldSize(5, t.assignee);
    Uint64FieldSize(6, SignExtend(t.status));
  }

  lemma CreateSizeExact(m: MsgCreateTask)
    ensures SizeString(1, m.creator) + SizeString(2, m.title) + SizeString(3, m.description) == |EncodeCreate(m)|
  {
    StringFieldSize(1, m.creator);
    StringFieldSize(2, m.title);
    StringFieldSize(3, m.description);
  }

  lemma AssignSizeExact(m: MsgAssignTask)
    ensures SizeString(1, m.creator) + SizeUint64(2, m.taskId) + SizeString(3, m.assignee) == |EncodeAssign(m)|
  {
    StringFieldSize(1, m.creator);
    Uint64FieldSize(2, m.taskId);
    StringFieldSize(3, m.assignee);
  }

  lemma CompleteSizeExact(m: MsgCompleteTask)
    ensures SizeString(1, m.assignee) + SizeUint64(2, m.taskId) == |EncodeComplete(m)|
  {
    StringFieldSize(1, m.assignee);
    Uint64FieldSize(2, m.taskId);
  }

  lemma {:induction false} TaskRecordsSizeExact(ts: seq<Task>)
    requires Encodable(ts)
    ensures SizeTaskRecords(ts) == |EncodeTaskRecords(ts)|
  {
    if ts != [] {
      TaskSizeExact(ts[|ts| - 1]);
      TaskRecordsSizeExact(ts[..|ts| - 1]);
      RecordFieldSize(1, EncodeTask(ts[|ts| - 1]));
    }
  }

  lemma GenesisSizeExact(gs: GenesisState)
    requires Encodable(gs.tasks)
    ensures SizeTaskRecords(gs.tasks) + SizeUint64(2, gs.nextTaskId) == |EncodeGenesis(gs)|
  {
    TaskRecordsSizeExact(gs.tasks);
    Uint64FieldSize(2, gs.nextTaskId);
  }
}
