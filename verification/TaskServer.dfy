/** The running module: the keeper's methods over its store, and the message server. */
module TaskServer {
  import opened Bytes
  import opened TaskCodec
  import opened TaskMessages
  import opened TaskRegistry
  import opened TaskKeeper
  import opened TaskGenesis
  import opened TaskQuery

  class Keeper {
    var store: Store

    constructor ()
      ensures store == map[]
    {
      store := map[];
    }

    /** The key of a task: the id put big-endian into an eight-byte buffer, behind the prefix. */
    method MakeKey(id: uint64) returns (key: seq<byte>)
      ensures key == KeyTask(id)
    {
      var bz := new byte[8];
      var v: nat := id;
      var i := 8;
      while i > 0
        invariant 0 <= i <= 8
        invariant Uint64Bytes(id) == BigEndian(v, i) + bz[i..]
      {
        i := i - 1;
        bz[i] := v % 256;
        v := v / 256;
        assert bz[i..] == [bz[i]] + bz[i + 1..];
      }
      assert bz[0..] == bz[..];
      key := TASK_PREFIX + bz[..];
    }

    method SetTask(task: Task)
      modifies this
      ensures store == PutTask(old(store), task)
    {
      var ref := new TaskRef();
      ref.m := task;
      var bz := ref.Marshal();
      var key := MakeKey(task.id);
      store := store[key := bz];
    }

    method GetTask(id: uint64) returns (r: Lookup)
      ensures r == LookupTask(store, id)
      ensures WellFormed(store) ==> r == if id in Abs(store).tasks then Found(Abs(store).tasks[id]) else Missing
    {
      if WellFormed(store) { LookupIsAbs(store, id); }
      var key := MakeKey(id);
      if key !in store { return Missing; }
      var ref := new TaskRef();
      var err := ref.Unmarshal(store[key]);
      r := if err.Some? then Corrupt else Found(ref.m);
    }

    method GetNextTaskID() returns (id: Option<uint64>)
      ensures id == LookupNext(store)
    {
      if COUNT_KEY !in store { return Some(1); }
      var bz := store[COUNT_KEY];
      if |bz| < 8 { return None; }
      return Some(Uint64Of(bz));
    }

    method SetNextTaskID(id: uint64)
      modifies this
      ensures store == PutNext(old(store), id)
    {
      store := store[COUNT_KEY := Uint64Bytes(id)];
    }

    /** The byte-by-byte test for the task prefix. */
    method MatchesPrefix(key: seq<byte>) returns (matches: bool)
      ensures matches <==> HasPrefix(key, TASK_PREFIX)
    {
      hide TASK_PREFIX;
      if |key| < |TASK_PREFIX| { return false; }
      matches := true;
      for i := 0 to |TASK_PREFIX|
        invariant matches && key[..i] == TASK_PREFIX[..i]
      {
        if key[i] != TASK_PREFIX[i] {
          matches := false;
          assert key[..|TASK_PREFIX|][i] != TASK_PREFIX[i];
          break;
        }
      }
    }

    /** Walks the iterator from the prefix on, stopping at the first key without it, at
        a record that fails to decode, or when the callback says so. */
    method IterateTasks(stop: Task -> bool) returns (visited: seq<Task>, panicked: bool)
      ensures (visited, panicked) == Scan(store, SortedKeys(TaskKeys(store)), stop)
    {
      hide DecodeTask, LexLess, HasPrefix, KeysFrom, SortedKeys, TaskKeys, Scan;
      visited, panicked := [], false;
      var ks := OpenIterator(store, TASK_PREFIX);
      ghost var p := PrefixRun(store, ks);
      TaskKeysStored(store);
      ghost var left := ks[..p];
      ghost var all := Scan(store, left, stop);
      var i := 0;
      while i < |ks|
        invariant 0 <= i <= p && left == ks[i..p] && !panicked
        invariant forall k :: k in left ==> k in store
        invariant all.0 == visited + Scan(store, left, stop).0 && all.1 == Scan(store, left, stop).1
      {
        var key := ks[i];
        var matches := MatchesPrefix(key);
        if !matches { break; }
        ScanStep(store, left, stop);
        assert left[0] == key && left[1..] == ks[i + 1..p];
        left := left[1..];
        var ref := new TaskRef();
        var err := ref.Unmarshal(store[key]);
        if err.Some? {
          assert visited + [] == visited;
          return visited, true;
        }
        visited := visited + [ref.m];
        if stop(ref.m) { return; }
        i := i + 1;
      }
      assert left == [] && visited + [] == visited;
      ScanNothing(store, stop);
    }
  }

  /** GenesisState.Validate: a set of seen ids. */
  method Validate(gs: GenesisState) returns (ok: bool)
    ensures ok <==> NoDuplicates(gs.tasks)
  {
    var seen: set<uint64> := {};
    for n := 0 to |gs.tasks|
      invariant seen == set i | 0 <= i < n :: gs.tasks[i].id
      invariant NoDuplicates(gs.tasks[..n])
    {
      if gs.tasks[n].id in seen {
        var i :| 0 <= i < n && gs.tasks[i].id == gs.tasks[n].id;
        return false;
      }
      seen := seen + {gs.tasks[n].id};
    }
    assert gs.tasks[..|gs.tasks|] == gs.tasks;
    ok := true;
  }

  method InitGenesis(keeper: Keeper, gs: GenesisState)
    modifies keeper
    ensures keeper.store == ImportGenesis(old(keeper.store), gs)
  {
    hide PutTask, PutNext;
    for n := 0 to |gs.tasks|
      invariant keeper.store == PutTasks(old(keeper.store), gs.tasks[..n])
    {
      assert gs.tasks[..n + 1][..n] == gs.tasks[..n];
      keeper.SetTask(gs.tasks[n]);
    }
    assert gs.tasks[..|gs.tasks|] == gs.tasks;
    keeper.SetNextTaskID(gs.nextTaskId);
  }

  /** None, a panic, exactly when a record or the counter cannot be read; never on a
      well-formed store. */
  method ExportGenesis(keeper: Keeper) returns (gs: Option<GenesisState>)
    ensures gs.None? <==> ScanAll(keeper.store).1 || LookupNext(keeper.store).None?
    ensures gs.Some? ==> gs.value == GenesisState(ScanAll(keeper.store).0, LookupNext(keeper.store).value)
    ensures WellFormed(keeper.store) ==> gs == Some(ExportedGenesis(keeper.store))
  {
    if WellFormed(keeper.store) {
      ScanListsTasks(keeper.store);
      NextIsAbs(keeper.store);
    }
    hide WellFormed, Abs;
    var tasks, panicked := keeper.IterateTasks(Never);
    if panicked { return None; }
    var next := keeper.GetNextTaskID();
    if next.None? { return None; }
    return Some(GenesisState(tasks, next.value));
  }

  /** A query's answer: an error for a nil request, one for an unknown task, a panic, or
      the response. */
  datatype Response<T> = InvalidArgument | NotFound | Panic | Served(value: T)

  datatype ListRequest = ListRequest(pagination: Option<PageRequest>)

  class QueryServer {
    const keeper: Keeper

    constructor (keeper: Keeper)
      ensures this.keeper == keeper
    {
      this.keeper := keeper;
    }

    /** Task. A nil request is refused before the store is read. */
    method Task(req: Option<uint64>) returns (r: Response<Task>)
      ensures r == match req
        case None => InvalidArgument
        case Some(id) =>
          match LookupTask(keeper.store, id)
          case Missing => NotFound
          case Corrupt => Panic
          case Found(task) => Served(task)
    {
      if req.None? { return InvalidArgument; }
      var found := keeper.GetTask(req.value);
      if found.Missing? { return NotFound; }
      if found.Corrupt? { return Panic; }
      r := Served(found.task);
    }

    /** The listing's length is a Go int. */
    method ListTasks(req: Option<ListRequest>) returns (r: Response<TaskPage>)
      requires |ScanAll(keeper.store).0| < TWO_63
      ensures req.None? <==> r.InvalidArgument?
      ensures var (all, unreadable) := ScanAll(keeper.store);
        req.Some? ==>
          if unreadable then r == Panic
          else
            match req.value.pagination
            case None => r == Served(TaskPage(all, |all|))
            case Some(p) =>
              if InRange(|all|, p) then r == Served(TaskPage(Window(all, p.offset, p.limit), |all|)) else r == Panic
    {
      if req.None? { return InvalidArgument; }
      var allTasks, panicked := keeper.IterateTasks(Never);
      if panicked { return Panic; }
      var page := Paginate(allTasks, req.value.pagination);
      r := if page.Some? then Served(page.value) else Panic;
    }
  }

  /** Each handler does to the store what StoreStep says; StepRefines relates that to the registry. */
  class MsgServer {
    const keeper: Keeper

    constructor (keeper: Keeper)
      ensures this.keeper == keeper
    {
      this.keeper := keeper;
    }

    method CreateTask(msg: MsgCreateTask) returns (reply: Reply)
      modifies keeper
      ensures (keeper.store, reply) == StoreStep(old(keeper.store), Create(msg))
    {
      hide LookupTask, LookupNext, PutTask, PutNext;
      var id := keeper.GetNextTaskID();
      if id.None? { return Panicked; }
      var task := Task(id.value, msg.title, msg.description, msg.creator, [], STATUS_OPEN);
      keeper.SetTask(task);
      keeper.SetNextTaskID((id.value + 1) % TWO_64);
      reply := Created(id.value);
    }

    method AssignTask(msg: MsgAssignTask) returns (reply: Reply)
      modifies keeper
      ensures (keeper.store, reply) == StoreStep(old(keeper.store), Assign(msg))
    {
      hide LookupTask, LookupNext, PutTask, PutNext;
      var found := keeper.GetTask(msg.taskId);
      if found.Missing? { return TaskNotFound; }
      if found.Corrupt? { return Panicked; }
      var task := found.task;
      if task.creator != msg.creator { return Unauthorized; }
      if task.status != STATUS_OPEN { return InvalidStatus; }
      task := task.(assignee := msg.assignee);
      task := task.(status := STATUS_ASSIGNED);
      keeper.SetTask(task);
      reply := Done;
    }

    method CompleteTask(msg: MsgCompleteTask) returns (reply: Reply)
      modifies keeper
      ensures (keeper.store, reply) == StoreStep(old(keeper.store), Complete(msg))
    {
      hide LookupTask, LookupNext, PutTask, PutNext;
      var found := keeper.GetTask(msg.taskId);
      if found.Missing? { return TaskNotFound; }
      if found.Corrupt? { return Panicked; }
      var task := found.task;
      if task.assignee != msg.assignee { return Unauthorized; }
      if task.status != STATUS_ASSIGNED { return InvalidStatus; }
      task := task.(status := STATUS_COMPLETED);
      keeper.SetTask(task);
      reply := Done;
    }
  }
}
