/** The keeper: tasks and counter as bytes in one ordered store. */
module TaskKeeper {
  import opened Bytes
  import opened MessageCodec
  import opened TaskCodec
  import opened TaskRegistry

  type Store = map<seq<byte>, seq<byte>>

  const TASK_PREFIX: seq<byte> := Ascii("Task/value/")
  const COUNT_KEY: seq<byte> := Ascii("Task/count")

  function KeyTask(id: uint64): seq<byte> {
    TASK_PREFIX + Uint64Bytes(id)
  }

  datatype Lookup = Missing | Found(task: Task) | Corrupt

  // ---------- What each operation does to any store ----------

  function LookupTask(store: Store, id: uint64): Lookup {
    if KeyTask(id) !in store then Missing
    else
      var r := DecodeTask(store[KeyTask(id)], ZERO_TASK);
      if r.err.Some? then Corrupt else Found(r.m)
  }

  function PutTask(store: Store, t: Task): Store {
    store[KeyTask(t.id) := EncodeTask(t)]
  }

  /** The counter, 1 when absent; None when its bytes are too short to read. */
  function LookupNext(store: Store): Option<uint64> {
    if COUNT_KEY !in store then Some(1)
    else if |store[COUNT_KEY]| < 8 then None
    else Some(Uint64Of(store[COUNT_KEY]))
  }

  function PutNext(store: Store, id: uint64): Store {
    store[COUNT_KEY := Uint64Bytes(id)]
  }

  function StoreStep(store: Store, m: Msg): (Store, Reply) {
    if m.Create? then
      match LookupNext(store)
      case None => (store, Panicked)
      case Some(id) => (PutNext(PutTask(store, NewTask(id, m.c)), Inc(id)), Created(id))
    else
      match LookupTask(store, TaskIdOf(m))
      case Missing => (store, TaskNotFound)
      case Corrupt => (store, Panicked)
      case Found(t) =>
        var (t', reply) := Amend(t, m);
        (if reply.Done? then PutTask(store, t') else store, reply)
  }

  function StoreRun(store: Store, ms: seq<Msg>): Store
    decreases |ms|
  {
    if ms == [] then store else StoreRun(StoreStep(store, ms[0]).0, ms[1..])
  }

  // ---------- Key layout ----------

  lemma KeyPrefix(id: uint64)
    ensures HasPrefix(KeyTask(id), TASK_PREFIX) && KeyTask(id)[|TASK_PREFIX|..] == Uint64Bytes(id)
    ensures Uint64Of(KeyTask(id)[|TASK_PREFIX|..]) == id
  {
    Uint64RoundTrip(id);
  }

  /** The keys and values as bytes: the literal prefix and the big-endian id; a record and
      a big-endian counter. */
  lemma StoredForm(store: Store, t: Task, next: uint64)
    ensures KeyTask(t.id) == Ascii("Task/value/") + Uint64Bytes(t.id) && |KeyTask(t.id)| == 19
    ensures PutTask(store, t) == store[Ascii("Task/value/") + Uint64Bytes(t.id) := EncodeTask(t)]
    ensures PutNext(store, next) == store[Ascii("Task/count") := Uint64Bytes(next)]
  {
  }

  lemma KeyInjective(i: uint64, j: uint64)
    ensures KeyTask(i) == KeyTask(j) <==> i == j
  {
    KeyPrefix(i);
    KeyPrefix(j);
  }

  /** Task keys sort by id. */
  lemma KeyOrder(i: uint64, j: uint64)
    ensures LexLess(KeyTask(i), KeyTask(j)) <==> i < j
  {
    LexCommonPrefix(TASK_PREFIX, Uint64Bytes(i), Uint64Bytes(j));
    Pow256Eight();
    BigEndianOrder(i, j, 8);
  }

  /** The counter is never taken for a task. */
  lemma CountKeyApart()
    ensures !HasPrefix(COUNT_KEY, TASK_PREFIX)
  {
    assert |COUNT_KEY| == 10 && |TASK_PREFIX| == 11;
  }

  // ---------- The registry a well-formed store stands for ----------

  predicate IsTaskEntry(k: seq<byte>, v: seq<byte>) {
    var r := DecodeTask(v, ZERO_TASK);
    r.err.None? && KeyTask(r.m.id) == k
  }

  /** Every task-prefixed entry decodes to a task stored under its own key, and the
      counter, if present, is readable. Other keys are unconstrained. */
  ghost predicate WellFormed(store: Store) {
    && (forall k :: k in store && HasPrefix(k, TASK_PREFIX) ==> IsTaskEntry(k, store[k]))
    && LookupNext(store).Some?
  }

  function StoredIds(store: Store): set<uint64> {
    set k |
      k in store && HasPrefix(k, TASK_PREFIX) && |k| >= |TASK_PREFIX| + 8 && KeyTask(Uint64Of(k[|TASK_PREFIX|..])) == k
      :: Uint64Of(k[|TASK_PREFIX|..])
  }

  ghost function Abs(store: Store): Registry
    requires WellFormed(store)
  {
    Registry(
      map id | id in StoredIds(store) && LookupTask(store, id).Found? :: LookupTask(store, id).task,
      LookupNext(store).value)
  }

  lemma StoredIdsAre(store: Store, id: uint64)
    ensures id in StoredIds(store) <==> KeyTask(id) in store
  {
    KeyPrefix(id);
    if KeyTask(id) in store {
      assert KeyTask(Uint64Of(KeyTask(id)[|TASK_PREFIX|..])) == KeyTask(id);
    }
  }

  /** GetTask reads exactly the abstract record. */
  lemma LookupIsAbs(store: Store, id: uint64)
    requires WellFormed(store)
    ensures LookupTask(store, id) == if id in Abs(store).tasks then Found(Abs(store).tasks[id]) else Missing
    ensures id in Abs(store).tasks ==> Abs(store).tasks[id].id == id
  {
    StoredIdsAre(store, id);
    KeyPrefix(id);
    if KeyTask(id) in store {
      assert IsTaskEntry(KeyTask(id), store[KeyTask(id)]);
      KeyInjective(LookupTask(store, id).task.id, id);
    }
  }

  // ---------- Refinement ----------

  lemma NextIsAbs(store: Store)
    requires WellFormed(store)
    ensures LookupNext(store) == Some(Abs(store).next)
  {
  }

  lemma PutTaskWellFormed(store: Store, t: Task)
    requires WellFormed(store)
    ensures WellFormed(PutTask(store, t))
    ensures LookupNext(PutTask(store, t)) == LookupNext(store)
  {
    CountKeyApart();
    KeyPrefix(t.id);
    TaskRoundTrip(t);
    hide DecodeTask, EncodeTask, KeyTask, TASK_PREFIX, COUNT_KEY;
  }

  lemma LookupPut(store: Store, t: Task, id: uint64)
    ensures LookupTask(PutTask(store, t), id) == if id == t.id then Found(t) else LookupTask(store, id)
  {
    TaskRoundTrip(t);
    KeyInjective(id, t.id);
    hide DecodeTask, EncodeTask, KeyTask;
  }

  lemma PutTaskRefines(store: Store, t: Task)
    requires WellFormed(store)
    ensures WellFormed(PutTask(store, t))
    ensures Abs(PutTask(store, t)) == Abs(store).(tasks := Abs(store).tasks[t.id := t])
  {
    hide WellFormed, Abs, PutTask, LookupTask;
    PutTaskWellFormed(store, t);
    NextIsAbs(store);
    NextIsAbs(PutTask(store, t));
    var tasks', expected := Abs(PutTask(store, t)).tasks, Abs(store).tasks[t.id := t];
    forall id: uint64
      ensures id in tasks' <==> id in expected
      ensures id in expected ==> tasks'[id] == expected[id]
    {
      LookupIsAbs(store, id);
      LookupIsAbs(PutTask(store, t), id);
      LookupPut(store, t, id);
    }
    assert tasks' == expected;
  }

  lemma PutNextWellFormed(store: Store, next: uint64)
    requires WellFormed(store)
    ensures WellFormed(PutNext(store, next))
    ensures LookupNext(PutNext(store, next)) == Some(next)
    ensures forall id :: LookupTask(PutNext(store, next), id) == LookupTask(store, id)
  {
    CountKeyApart();
    Uint64RoundTrip(next);
    hide DecodeTask, KeyTask, TASK_PREFIX, COUNT_KEY, Uint64Bytes, Uint64Of;
    forall id: uint64 ensures LookupTask(PutNext(store, next), id) == LookupTask(store, id) { KeyPrefix(id); }
  }

  lemma PutNextRefines(store: Store, next: uint64)
    requires WellFormed(store)
    ensures WellFormed(PutNext(store, next))
    ensures Abs(PutNext(store, next)) == Abs(store).(next := next)
  {
    hide WellFormed, Abs, PutNext, LookupTask, LookupNext;
    PutNextWellFormed(store, next);
    NextIsAbs(PutNext(store, next));
    forall id: uint64
      ensures id in Abs(PutNext(store, next)).tasks <==> id in Abs(store).tasks
      ensures id in Abs(store).tasks ==> Abs(PutNext(store, next)).tasks[id] == Abs(store).tasks[id]
    {
      LookupIsAbs(store, id);
      LookupIsAbs(PutNext(store, next), id);
    }
    assert Abs(PutNext(store, next)).tasks == Abs(store).tasks;
  }

  lemma CreateRefines(store: Store, c: MsgCreateTask)
    requires WellFormed(store)
    ensures WellFormed(StoreStep(store, Create(c)).0)
    ensures (Abs(StoreStep(store, Create(c)).0), StoreStep(store, Create(c)).1) == Step(Abs(store), Create(c))
  {
    NextIsAbs(store);
    hide WellFormed, Abs, PutTask, PutNext, LookupTask, LookupNext, NewTask;
    var t := NewTask(Abs(store).next, c);
    NewTaskId(Abs(store).next, c);
    PutTaskRefines(store, t);
    PutNextRefines(PutTask(store, t), Inc(t.id));
  }

  lemma AmendRefines(store: Store, m: Msg)
    requires WellFormed(store) && !m.Create?
    ensures WellFormed(StoreStep(store, m).0)
    ensures (Abs(StoreStep(store, m).0), StoreStep(store, m).1) == Step(Abs(store), m)
  {
    hide WellFormed, Abs, PutTask, LookupTask, Amend;
    LookupIsAbs(store, TaskIdOf(m));
    var l := LookupTask(store, TaskIdOf(m));
    if l.Found? { PutTaskRefines(store, Amend(l.task, m).0); }
  }

  /** Every message on a well-formed store does to the bytes what the registry does to
      the map, with the same reply; it never panics, and amended records go back to the
      key they came from. */
  lemma StepRefines(store: Store, m: Msg)
    requires WellFormed(store)
    ensures WellFormed(StoreStep(store, m).0)
    ensures (Abs(StoreStep(store, m).0), StoreStep(store, m).1) == Step(Abs(store), m)
  {
    hide WellFormed, Abs, StoreStep, Step;
    if m.Create? { CreateRefines(store, m.c); } else { AmendRefines(store, m); }
  }

  lemma NewTaskId(id: uint64, c: MsgCreateTask)
    ensures NewTask(id, c).id == id
  {
  }

  lemma {:induction false} RunRefines(store: Store, ms: seq<Msg>)
    requires WellFormed(store)
    ensures WellFormed(StoreRun(store, ms)) && Abs(StoreRun(store, ms)) == Run(Abs(store), ms)
    decreases |ms|
  {
    if ms != [] {
      hide StoreStep, Step, WellFormed, Abs;
      StepRefines(store, ms[0]);
      RunRefines(StoreStep(store, ms[0]).0, ms[1..]);
    }
  }

  // ---------- Scanning the task prefix ----------

  function TaskKeys(store: Store): set<seq<byte>> {
    set k | k in store && HasPrefix(k, TASK_PREFIX)
  }

  predicate Never(t: Task) {
    false
  }

  /** The callback's tasks along a list of keys, until it stops the scan or a record
      fails to decode (the flag). */
  function Scan(store: Store, ks: seq<seq<byte>>, stop: Task -> bool): (seq<Task>, bool)
    requires forall k :: k in ks ==> k in store
  {
    if ks == [] then ([], false)
    else
      var d := DecodeTask(store[ks[0]], ZERO_TASK);
      if d.err.Some? then ([], true)
      else if stop(d.m) then ([d.m], false)
      else
        var (rest, panicked) := Scan(store, ks[1..], stop);
        ([d.m] + rest, panicked)
  }

  lemma ScanNothing(store: Store, stop: Task -> bool)
    ensures Scan(store, [], stop) == ([], false)
  {
  }

  lemma ScanStep(store: Store, ks: seq<seq<byte>>, stop: Task -> bool)
    requires ks != [] && forall k :: k in ks ==> k in store
    ensures ks[0] in store && forall k :: k in ks[1..] ==> k in store
    ensures var d := DecodeTask(store[ks[0]], ZERO_TASK); var rest := Scan(store, ks[1..], stop);
      Scan(store, ks, stop) ==
        if d.err.Some? then ([], true)
        else if stop(d.m) then ([d.m], false)
        else ([d.m] + rest.0, rest.1)
  {
    hide DecodeTask;
  }

  ghost function ScanAll(store: Store): (seq<Task>, bool) {
    Scan(store, SortedKeys(TaskKeys(store)), Never)
  }

  /** What a scan visits: the records of the first keys in order, none before the last of
      them stopped by the callback; it ends early only at a record the callback stops at,
      which is visited, or panics exactly at the first one that does not decode. */
  lemma {:induction false} ScanIs(store: Store, ks: seq<seq<byte>>, stop: Task -> bool)
    requires forall k :: k in ks ==> k in store
    ensures var (ts, panicked) := Scan(store, ks, stop);
      && |ts| <= |ks|
      && (forall i :: 0 <= i < |ts| ==>
            ks[i] in store && DecodeTask(store[ks[i]], ZERO_TASK) == Outcome(ts[i], None))
      && (forall i :: 0 <= i < |ts| - 1 ==> !stop(ts[i]))
      && (ts != [] && stop(ts[|ts| - 1]) ==> !panicked)
      && (panicked ==> |ts| < |ks| && ks[|ts|] in store && DecodeTask(store[ks[|ts|]], ZERO_TASK).err.Some?)
      && (!panicked ==> |ts| == |ks| || (ts != [] && stop(ts[|ts| - 1])))
  {
    hide DecodeTask, Scan;
    if ks == [] {
      ScanNothing(store, stop);
    } else {
      ScanStep(store, ks, stop);
      ScanIs(store, ks[1..], stop);
    }
  }

  /** A scan that nothing stops visits the record of every key once, in key order. */
  lemma {:induction false} ScanVisitsEach(store: Store, ks: seq<seq<byte>>)
    requires forall k :: k in ks ==> k in store && DecodeTask(store[k], ZERO_TASK).err.None?
    ensures var (ts, panicked) := Scan(store, ks, Never);
      !panicked && |ts| == |ks| && forall i :: 0 <= i < |ks| ==> ts[i] == DecodeTask(store[ks[i]], ZERO_TASK).m
  {
    hide DecodeTask, Scan;
    if ks == [] {
      ScanNothing(store, Never);
    } else {
      ScanStep(store, ks, Never);
      ScanVisitsEach(store, ks[1..]);
    }
  }

  lemma {:induction false} IdsWithin(ts: seq<Task>, ids: set<uint64>)
    requires forall i :: 0 <= i < |ts| ==> ts[i].id in ids
    ensures Ids(ts) <= ids
  {
    if ts != [] { IdsWithin(ts[..|ts| - 1], ids); }
  }

  lemma KeyHoldsRecord(store: Store, k: seq<byte>)
    requires WellFormed(store) && k in TaskKeys(store)
    ensures var d := DecodeTask(store[k], ZERO_TASK);
      d.err.None? && KeyTask(d.m.id) == k && d.m.id in Abs(store).tasks.Keys && Abs(store).tasks[d.m.id] == d.m
  {
    hide DecodeTask, KeyTask, TASK_PREFIX, Abs;
    assert IsTaskEntry(k, store[k]);
    LookupIsAbs(store, DecodeTask(store[k], ZERO_TASK).m.id);
  }

  lemma RecordHasKey(store: Store, id: uint64)
    requires WellFormed(store) && id in Abs(store).tasks
    ensures KeyTask(id) in TaskKeys(store)
  {
    hide DecodeTask, KeyTask, TASK_PREFIX, Abs;
    LookupIsAbs(store, id);
    KeyPrefix(id);
  }

  lemma RecordsList(store: Store, ks: seq<seq<byte>>, ts: seq<Task>)
    requires WellFormed(store) && ks == SortedKeys(TaskKeys(store)) && |ts| == |ks|
    requires forall i :: 0 <= i < |ks| ==> ks[i] in store && ts[i] == DecodeTask(store[ks[i]], ZERO_TASK).m
    ensures ListsByIndex(ts, Abs(store).tasks)
  {
    hide DecodeTask, KeyTask, TaskKeys, WellFormed, Abs, Ids, LexLess;
    var tasks := Abs(store).tasks;
    forall i | 0 <= i < |ts| ensures KeyTask(ts[i].id) == ks[i] && ts[i].id in tasks.Keys && tasks[ts[i].id] == ts[i] {
      assert ks[i] in ks;
      KeyHoldsRecord(store, ks[i]);
    }
    forall i, j | 0 <= i < j < |ts| ensures ts[i].id < ts[j].id {
      KeyOrder(ts[i].id, ts[j].id);
    }
    IdsWithin(ts, tasks.Keys);
    forall id | id in tasks.Keys ensures id in Ids(ts) {
      RecordHasKey(store, id);
      assert KeyTask(id) in ks;
      var i :| 0 <= i < |ks| && ks[i] == KeyTask(id);
      KeyInjective(ts[i].id, id);
      IdsAt(ts, i);
    }
  }

  /** On a well-formed store the full scan is the registry's listing by id: every task,
      no other entry, never the counter. */
  lemma ScanListsTasks(store: Store)
    requires WellFormed(store)
    ensures !ScanAll(store).1 && Lists(ScanAll(store).0, Abs(store).tasks)
  {
    hide DecodeTask, KeyTask, TaskKeys, WellFormed, Abs, Scan;
    var ks := SortedKeys(TaskKeys(store));
    forall k | k in ks ensures k in store && DecodeTask(store[k], ZERO_TASK).err.None? {
      TaskKeysStored(store);
      KeyHoldsRecord(store, k);
    }
    ScanVisitsEach(store, ks);
    RecordsList(store, ks, ScanAll(store).0);
    IndexedLists(ScanAll(store).0, Abs(store).tasks);
  }

  lemma TaskKeysStored(store: Store)
    ensures forall k :: k in TaskKeys(store) ==> k in store
  {
  }

  /** What an iterator started at the prefix sees before its first key without the
      prefix is exactly the prefixed keys. */
  lemma PrefixRun(store: Store, ks: seq<seq<byte>>) returns (p: nat)
    requires ks == SortedKeys(KeysFrom(store, TASK_PREFIX))
    ensures p <= |ks| && ks[..p] == SortedKeys(TaskKeys(store))
    ensures forall i :: 0 <= i < p ==> HasPrefix(ks[i], TASK_PREFIX)
    ensures p < |ks| ==> !HasPrefix(ks[p], TASK_PREFIX)
  {
    hide TASK_PREFIX, LexLess, HasPrefix;
    p := 0;
    while p < |ks| && HasPrefix(ks[p], TASK_PREFIX)
      invariant p <= |ks| && forall i :: 0 <= i < p ==> HasPrefix(ks[i], TASK_PREFIX)
    {
      p := p + 1;
    }
    forall i | p <= i < |ks| ensures !HasPrefix(ks[i], TASK_PREFIX) {
      assert ks[p] in ks;
      if i > p { PrefixContiguous(TASK_PREFIX, ks[p], ks[i]); }
    }
    forall k ensures k in ks[..p] <==> k in TaskKeys(store) {
      if k in TaskKeys(store) {
        PrefixNotLess(TASK_PREFIX, k);
        assert k in KeysFrom(store, TASK_PREFIX);
        var i :| 0 <= i < |ks| && ks[i] == k;
      }
      if k in ks[..p] { assert k in ks; }
    }
    SortedUnique(ks[..p], TaskKeys(store));
  }
}
