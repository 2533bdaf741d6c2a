/** The codec methods of the registry's message structs, as the Go code runs them:
    a receiver object, a slice that is advanced, fields assigned as they are read. */
module TaskMessages {
  import opened Bytes
  import opened ProtoWire
  import opened MessageCodec
  import opened TaskCodec

  /** Go's copy: fills from `at` as far as both slices reach. */
  method Copy(dst: array<byte>, at: nat, src: seq<byte>)
    requires at <= dst.Length
    modifies dst
    ensures var n := if |src| <= dst.Length - at then |src| else dst.Length - at;
      dst[..] == old(dst[..])[..at] + src[..n] + old(dst[..])[at + n..]
  {
    var n := if |src| <= dst.Length - at then |src| else dst.Length - at;
    for i := 0 to n
      invariant forall j :: 0 <= j < dst.Length ==> dst[j] == if at <= j < at + i then src[j - at] else old(dst[j])
    {
      dst[at + i] := src[i];
    }
  }

  /** MarshalTo once the message is marshaled: writes at the front, silently cut short by a
      small buffer. */
  method CopyFront(bz: seq<byte>, dAtA: array<byte>) returns (n: nat)
    modifies dAtA
    ensures n == |bz|
    ensures n <= dAtA.Length ==> dAtA[..] == bz + old(dAtA[..])[n..]
    ensures n > dAtA.Length ==> dAtA[..] == bz[..dAtA.Length]
  {
    Copy(dAtA, 0, bz);
    n := |bz|;
    if n <= dAtA.Length {
      assert bz[..n] == bz;
    }
  }

  /** MarshalToSizedBuffer once the message is marshaled: writes at the back; a
      slice-bounds panic (None) when the buffer is too small. */
  method CopyBack(bz: seq<byte>, dAtA: array<byte>) returns (n: Option<nat>)
    modifies dAtA
    ensures n.Some? <==> |bz| <= dAtA.Length
    ensures n.Some? ==> n.value == |bz| && dAtA[..] == old(dAtA[..])[..dAtA.Length - |bz|] + bz
    ensures n.None? ==> dAtA[..] == old(dAtA[..])
  {
    if dAtA.Length < |bz| { return None; }
    Copy(dAtA, dAtA.Length - |bz|, bz);
    assert bz[..|bz|] == bz;
    return Some(|bz|);
  }

  class TaskRef {
    var m: Task

    constructor ()
      ensures m == ZERO_TASK
    {
      m := ZERO_TASK;
    }

    method Size() returns (n: int)
      ensures n == |EncodeTask(m)|
    {
      TaskSizeExact(m);
      n := SizeUint64(1, m.id);
      n := n + SizeString(2, m.title);
      n := n + SizeString(3, m.description);
      n := n + SizeString(4, m.creator);
      n := n + SizeString(5, m.assignee);
      if m.status != 0 {
        n := n + SizeTag(6) + SizeVarint(SignExtend(m.status));
      }
    }

    method Marshal() returns (b: seq<byte>)
      ensures b == EncodeTask(m)
      ensures DecodeTask(b, ZERO_TASK) == Outcome(m, None)
    {
      TaskRoundTrip(m);
      hide StringField, AppendTag, AppendVarint, DecodeTask, Decode;
      b := Uint64Field(1, m.id);
      b := b + StringField(2, m.title);
      b := b + StringField(3, m.description);
      b := b + StringField(4, m.creator);
      b := b + StringField(5, m.assignee);
      if m.status != 0 {
        b := b + AppendTag(6, VARINT) + AppendVarint(SignExtend(m.status));
      } else {
        assert b + [] == b;
      }
    }

    /** A buffer of exactly Size bytes receives the encoding. */
    method MarshalTo(dAtA: array<byte>) returns (n: nat)
      modifies dAtA
      ensures n == SizeTask(m)
      ensures n == dAtA.Length ==>
        dAtA[..] == EncodeTask(m) && DecodeTask(dAtA[..], ZERO_TASK) == Outcome(m, None)
      ensures n <= dAtA.Length ==> dAtA[..] == EncodeTask(m) + old(dAtA[..])[n..]
      ensures dAtA.Length < |EncodeTask(m)| ==> dAtA[..] == EncodeTask(m)[..dAtA.Length]
    {
      hide SizeTask, EncodeTask, DecodeTask;
      TaskSizeExact(m);
      var bz := Marshal();
      n := CopyFront(bz, dAtA);
      if n == dAtA.Length { assert bz + old(dAtA[..])[n..] == bz; }
    }

    /** So does it here, and a panic leaves a smaller buffer as it was. */
    method MarshalToSizedBuffer(dAtA: array<byte>) returns (n: Option<nat>)
      modifies dAtA
      ensures n == if SizeTask(m) <= dAtA.Length then Some(SizeTask(m)) else None
      ensures SizeTask(m) == dAtA.Length ==>
        dAtA[..] == EncodeTask(m) && DecodeTask(dAtA[..], ZERO_TASK) == Outcome(m, None)
      ensures n.Some? ==> dAtA[..] == old(dAtA[..])[..dAtA.Length - n.value] + EncodeTask(m)
      ensures n.None? ==> dAtA[..] == old(dAtA[..])
    {
      hide SizeTask, EncodeTask, DecodeTask;
      TaskSizeExact(m);
      var bz := Marshal();
      n := CopyBack(bz, dAtA);
      if |bz| == dAtA.Length { assert old(dAtA[..])[..0] + bz == bz; }
    }

    /** One turn of the Unmarshal loop: read a tag, then the field it announces. */
    method UnmarshalField(b: seq<byte>) returns (err: Option<DecodeError>, rest: seq<byte>)
      requires b != []
      modifies this
      ensures var h := ReadField(TASK_SCHEMA, b);
        && Outcome(m, err) == ApplyField(AssignTaskField, h, old(m))
        && (err.None? ==> !h.Bad? && rest == b[h.n..])
    {
      hide ConsumeVarint, ConsumeTag, ConsumeBytes, SkipField, Truncate;
      rest := b;
      var tag := ConsumeTag(b);
      if tag.Fail? { return Some(BadTag), b; }
      rest := b[tag.n..];
      if tag.v.num == 1 || tag.v.num == 6 {
        var v := ConsumeVarint(rest);
        if v.Fail? { return Some(BadVarint), rest; }
        if tag.v.num == 1 { m := m.(id := v.v); } else { m := m.(status := Truncate(v.v)); }
        rest := rest[v.n..];
      } else if 2 <= tag.v.num <= 5 {
        var v := ConsumeBytes(rest);
        if v.Fail? { return Some(BadBytes), rest; }
        match tag.v.num {
          case 2 => m := m.(title := v.v);
          case 3 => m := m.(description := v.v);
          case 4 => m := m.(creator := v.v);
          case _ => m := m.(assignee := v.v);
        }
        rest := rest[v.n..];
      } else {
        var k := SkipField(rest, tag.v.typ);
        if k.None? { return Some(InvalidField), rest; }
        rest := rest[k.value..];
      }
      err := None;
    }

    method Unmarshal(b0: seq<byte>) returns (err: Option<DecodeError>)
      modifies this
      ensures Outcome(m, err) == DecodeTask(b0, old(m))
    {
      hide Decode, ReadField, ApplyField;
      var b := b0;
      err := None;
      while |b| > 0
        invariant err.None? && DecodeTask(b, m) == DecodeTask(b0, old(m))
        decreases |b|
      {
        DecodeStep(TASK_SCHEMA, AssignTaskField, b, m);
        err, b := UnmarshalField(b);
        if err.Some? { return; }
      }
      DecodeNothing(TASK_SCHEMA, AssignTaskField, m);
    }
  }

  class CreateTaskRef {
    var m: MsgCreateTask

    constructor ()
      ensures m == ZERO_CREATE
    {
      m := ZERO_CREATE;
    }

    method Size() returns (n: int)
      ensures n == |EncodeCreate(m)|
    {
      CreateSizeExact(m);
      n := SizeString(1, m.creator) + SizeString(2, m.title) + SizeString(3, m.description);
    }

    method Marshal() returns (b: seq<byte>)
      ensures b == EncodeCreate(m)
      ensures DecodeCreate(b, ZERO_CREATE) == Outcome(m, None)
    {
      b := StringField(1, m.creator);
      b := b + StringField(2, m.title);
      b := b + StringField(3, m.description);
      CreateRoundTrip(m);
    }

    method UnmarshalField(b: seq<byte>) returns (err: Option<DecodeError>, rest: seq<byte>)
      requires b != []
      modifies this
      ensures var h := ReadField(CREATE_SCHEMA, b);
        && Outcome(m, err) == ApplyField(AssignCreateField, h, old(m))
        && (err.None? ==> !h.Bad? && rest == b[h.n..])
    {
      hide ConsumeVarint, ConsumeTag, ConsumeBytes, SkipField;
      rest := b;
      var tag := ConsumeTag(b);
      if tag.Fail? { return Some(BadTag), b; }
      rest := b[tag.n..];
      if 1 <= tag.v.num <= 3 {
        var v := ConsumeBytes(rest);
        if v.Fail? { return Some(BadBytes), rest; }
        match tag.v.num {
          case 1 => m := m.(creator := v.v);
          case 2 => m := m.(title := v.v);
          case _ => m := m.(description := v.v);
        }
        rest := rest[v.n..];
      } else {
        var k := SkipField(rest, tag.v.typ);
        if k.None? { return Some(InvalidField), rest; }
        rest := rest[k.value..];
      }
      err := None;
    }

    method Unmarshal(b0: seq<byte>) returns (err: Option<DecodeError>)
      modifies this
      ensures Outcome(m, err) == DecodeCreate(b0, old(m))
    {
      hide Decode, ReadField, ApplyField;
      var b := b0;
      err := None;
      while |b| > 0
        invariant err.None? && DecodeCreate(b, m) == DecodeCreate(b0, old(m))
        decreases |b|
      {
        DecodeStep(CREATE_SCHEMA, AssignCreateField, b, m);
        err, b := UnmarshalField(b);
        if err.Some? { return; }
      }
      DecodeNothing(CREATE_SCHEMA, AssignCreateField, m);
    }
  }

  class AssignTaskRef {
    var m: MsgAssignTask

    constructor ()
      ensures m == ZERO_ASSIGN
    {
      m := ZERO_ASSIGN;
    }

    method Size() returns (n: int)
      ensures n == |EncodeAssign(m)|
    {
      AssignSizeExact(m);
      n := SizeString(1, m.creator) + SizeUint64(2, m.taskId) + SizeString(3, m.assignee);
    }

    method Marshal() returns (b: seq<byte>)
      ensures b == EncodeAssign(m)
      ensures DecodeAssign(b, ZERO_ASSIGN) == Outcome(m, None)
    {
      b := StringField(1, m.creator);
      b := b + Uint64Field(2, m.taskId);
      b := b + StringField(3, m.assignee);
      AssignRoundTrip(m);
    }

    method UnmarshalField(b: seq<byte>) returns (err: Option<DecodeError>, rest: seq<byte>)
      requires b != []
      modifies this
      ensures var h := ReadField(ASSIGN_SCHEMA, b);
        && Outcome(m, err) == ApplyField(AssignAssignField, h, old(m))
        && (err.None? ==> !h.Bad? && rest == b[h.n..])
    {
      hide ConsumeVarint, ConsumeTag, ConsumeBytes, SkipField;
      rest := b;
      var tag := ConsumeTag(b);
      if tag.Fail? { return Some(BadTag), b; }
      rest := b[tag.n..];
      if tag.v.num == 2 {
        var v := ConsumeVarint(rest);
        if v.Fail? { return Some(BadVarint), rest; }
        m := m.(taskId := v.v);
        rest := rest[v.n..];
      } else if tag.v.num == 1 || tag.v.num == 3 {
        var v := ConsumeBytes(rest);
        if v.Fail? { return Some(BadBytes), rest; }
        if tag.v.num == 1 { m := m.(creator := v.v); } else { m := m.(assignee := v.v); }
        rest := rest[v.n..];
      } else {
        var k := SkipField(rest, tag.v.typ);
        if k.None? { return Some(InvalidField), rest; }
        rest := rest[k.value..];
      }
      err := None;
    }

    method Unmarshal(b0: seq<byte>) returns (err: Option<DecodeError>)
      modifies this
      ensures Outcome(m, err) == DecodeAssign(b0, old(m))
    {
      hide Decode, ReadField, ApplyField;
      var b := b0;
      err := None;
      while |b| > 0
        invariant err.None? && DecodeAssign(b, m) == DecodeAssign(b0, old(m))
        decreases |b|
      {
        DecodeStep(ASSIGN_SCHEMA, AssignAssignField, b, m);
        err, b := UnmarshalField(b);
        if err.Some? { return; }
      }
      DecodeNothing(ASSIGN_SCHEMA, AssignAssignField, m);
    }
  }

  class CompleteTaskRef {
    var m: MsgCompleteTask

    constructor ()
      ensures m == ZERO_COMPLETE
    {
      m := ZERO_COMPLETE;
    }

    method Size() returns (n: int)
      ensures n == |EncodeComplete(m)|
    {
      CompleteSizeExact(m);
      n := SizeString(1, m.assignee) + SizeUint64(2, m.taskId);
    }

    method Marshal() returns (b: seq<byte>)
      ensures b == EncodeComplete(m)
      ensures DecodeComplete(b, ZERO_COMPLETE) == Outcome(m, None)
    {
      b := StringField(1, m.assignee);
      b := b + Uint64Field(2, m.taskId);
      CompleteRoundTrip(m);
    }

    method UnmarshalField(b: seq<byte>) returns (err: Option<DecodeError>, rest: seq<byte>)
      requires b != []
      modifies this
      ensures var h := ReadField(COMPLETE_SCHEMA, b);
        && Outcome(m, err) == ApplyField(AssignCompleteField, h, old(m))
        && (err.None? ==> !h.Bad? && rest == b[h.n..])
    {
      hide ConsumeVarint, ConsumeTag, ConsumeBytes, SkipField;
      rest := b;
      var tag := ConsumeTag(b);
      if tag.Fail? { return Some(BadTag), b; }
      rest := b[tag.n..];
      if tag.v.num == 1 {
        var v := ConsumeBytes(rest);
        if v.Fail? { return Some(BadBytes), rest; }
        m := m.(assignee := v.v);
        rest := rest[v.n..];
      } else if tag.v.num == 2 {
        var v := ConsumeVarint(rest);
        if v.Fail? { return Some(BadVarint), rest; }
        m := m.(taskId := v.v);
        rest := rest[v.n..];
      } else {
        var k := SkipField(rest, tag.v.typ);
        if k.None? { return Some(InvalidField), rest; }
        rest := rest[k.value..];
      }
      err := None;
    }

    method Unmarshal(b0: seq<byte>) returns (err: Option<DecodeError>)
      modifies this
      ensures Outcome(m, err) == DecodeComplete(b0, old(m))
    {
      hide Decode, ReadField, ApplyField;
      var b := b0;
      err := None;
      while |b| > 0
        invariant err.None? && DecodeComplete(b, m) == DecodeComplete(b0, old(m))
        decreases |b|
      {
        DecodeStep(COMPLETE_SCHEMA, AssignCompleteField, b, m);
        err, b := UnmarshalField(b);
        if err.Some? { return; }
      }
      DecodeNothing(COMPLETE_SCHEMA, AssignCompleteField, m);
    }
  }

  class GenesisRef {
    var m: GenesisState

    constructor ()
      ensures m == ZERO_GENESIS
    {
      m := ZERO_GENESIS;
    }

    method Size() returns (n: int)
      requires Encodable(m.tasks)
      ensures n == |EncodeGenesis(m)|
    {
      hide SizeTask, SizeTag, SizeBytes, SizeUint64, EncodeTask, EncodeGenesis;
      n := 0;
      for i := 0 to |m.tasks|
        invariant n == SizeTaskRecords(m.tasks[..i])
      {
        assert m.tasks[..i + 1][..i] == m.tasks[..i];
        n := n + SizeTag(1) + SizeBytes(SizeTask(m.tasks[i]));
      }
      assert m.tasks[..|m.tasks|] == m.tasks;
      n := n + SizeUint64(2, m.nextTaskId);
      GenesisSizeExact(m);
    }

    method Marshal() returns (b: seq<byte>)
      requires Encodable(m.tasks)
      ensures b == EncodeGenesis(m)
      ensures DecodeGenesis(b, ZERO_GENESIS) == Outcome(m, None)
    {
      hide EncodeTask, AppendTag, AppendBytes;
      b := [];
      for i := 0 to |m.tasks|
        invariant b == EncodeTaskRecords(m.tasks[..i])
      {
        assert m.tasks[..i + 1][..i] == m.tasks[..i];
        b := b + AppendTag(1, BYTES) + AppendBytes(EncodeTask(m.tasks[i]));
      }
      assert m.tasks[..|m.tasks|] == m.tasks;
      b := b + Uint64Field(2, m.nextTaskId);
      GenesisCodecRoundTrip(m);
    }

    method UnmarshalField(b: seq<byte>) returns (err: Option<DecodeError>, rest: seq<byte>)
      requires b != []
      modifies this
      ensures var h := ReadField(GENESIS_SCHEMA, b);
        && Outcome(m, err) == ApplyField(AssignGenesisField, h, old(m))
        && (err.None? ==> !h.Bad? && rest == b[h.n..])
    {
      hide ConsumeVarint, ConsumeTag, ConsumeBytes, SkipField;
      rest := b;
      var tag := ConsumeTag(b);
      if tag.Fail? { return Some(BadTag), b; }
      rest := b[tag.n..];
      if tag.v.num == 1 {
        var v := ConsumeBytes(rest);
        if v.Fail? { return Some(BadBytes), rest; }
        var task := new TaskRef();
        err := task.Unmarshal(v.v);
        if err.Some? { return; }
        m := m.(tasks := m.tasks + [task.m]);
        rest := rest[v.n..];
      } else if tag.v.num == 2 {
        var v := ConsumeVarint(rest);
        if v.Fail? { return Some(BadVarint), rest; }
        m := m.(nextTaskId := v.v);
        rest := rest[v.n..];
      } else {
        var k := SkipField(rest, tag.v.typ);
        if k.None? { return Some(InvalidField), rest; }
        rest := rest[k.value..];
      }
      err := None;
    }

    method Unmarshal(b0: seq<byte>) returns (err: Option<DecodeError>)
      modifies this
      ensures Outcome(m, err) == DecodeGenesis(b0, old(m))
    {
      hide Decode, ReadField, ApplyField;
      var b := b0;
      err := None;
      while |b| > 0
        invariant err.None? && DecodeGenesis(b, m) == DecodeGenesis(b0, old(m))
        decreases |b|
      {
        DecodeStep(GENESIS_SCHEMA, AssignGenesisField, b, m);
        err, b := UnmarshalField(b);
        if err.Some? { return; }
      }
      DecodeNothing(GENESIS_SCHEMA, AssignGenesisField, m);
    }
  }
}
