/** Genesis import and export, as functions on the byte store, and what they undo. */
module TaskGenesis {
  import opened Bytes
  import opened TaskCodec
  import opened TaskRegistry
  import opened TaskLife
  import opened TaskKeeper

  function PutTasks(store: Store, ts: seq<Task>): Store {
    if ts == [] then store else PutTask(PutTasks(store, ts[..|ts| - 1]), ts[|ts| - 1])
  }

  function ImportGenesis(store: Store, gs: GenesisState): Store {
    PutNext(PutTasks(store, gs.tasks), gs.nextTaskId)
  }

  ghost function ExportedGenesis(store: Store): GenesisState
    requires WellFormed(store)
  {
    GenesisState(ScanAll(store).0, Abs(store).next)
  }

  /** Validate's whole condition: no two tasks share an id. */
  ghost predicate NoDuplicates(ts: seq<Task>) {
    forall i, j :: 0 <= i < j < |ts| ==> ts[i].id != ts[j].id
  }

  function PutAll(tasks: map<uint64, Task>, ts: seq<Task>): map<uint64, Task> {
    if ts == [] then tasks
    else
      var last := ts[|ts| - 1];
      PutAll(tasks, ts[..|ts| - 1])[last.id := last]
  }

  lemma EmptyIsWellFormed()
    ensures WellFormed(map[]) && Abs(map[]) == Registry(map[], 1)
  {
  }

  lemma {:induction false} PutTasksRefines(store: Store, ts: seq<Task>)
    requires WellFormed(store)
    ensures WellFormed(PutTasks(store, ts))
    ensures Abs(PutTasks(store, ts)) == Abs(store).(tasks := PutAll(Abs(store).tasks, ts))
  {
    hide PutTask, WellFormed, Abs;
    if ts != [] {
      PutTasksRefines(store, ts[..|ts| - 1]);
      PutTaskRefines(PutTasks(store, ts[..|ts| - 1]), ts[|ts| - 1]);
    }
  }

  lemma ImportRefines(store: Store, gs: GenesisState)
    requires WellFormed(store)
    ensures WellFormed(ImportGenesis(store, gs))
    ensures Abs(ImportGenesis(store, gs)) == Registry(PutAll(Abs(store).tasks, gs.tasks), gs.nextTaskId)
  {
    hide PutTask, PutNext, WellFormed, Abs;
    PutTasksRefines(store, gs.tasks);
    PutNextRefines(PutTasks(store, gs.tasks), gs.nextTaskId);
  }

  // ---------- Ids and duplicates ----------

  lemma {:induction false} PutAllKeys(ts: seq<Task>)
    ensures PutAll(map[], ts).Keys == Ids(ts)
    ensures Keyed(PutAll(map[], ts))
  {
    if ts != [] { PutAllKeys(ts[..|ts| - 1]); }
  }

  lemma {:induction false} IdsAreOfTasks(ts: seq<Task>, id: uint64)
    requires id in Ids(ts)
    ensures exists i :: 0 <= i < |ts| && ts[i].id == id
  {
    var last := ts[|ts| - 1];
    if id == last.id {
      assert ts[|ts| - 1].id == id;
    } else {
      IdsAreOfTasks(ts[..|ts| - 1], id);
      var i :| 0 <= i < |ts| - 1 && ts[..|ts| - 1][i].id == id;
      assert ts[i].id == id;
    }
  }

  /** Ids are counted without loss exactly when there are no duplicates. */
  lemma {:induction false} DistinctCount(ts: seq<Task>)
    ensures |Ids(ts)| <= |ts|
    ensures |Ids(ts)| == |ts| <==> NoDuplicates(ts)
  {
    if ts != [] {
      var front, last := ts[..|ts| - 1], ts[|ts| - 1];
      DistinctCount(front);
      if last.id in Ids(front) {
        IdsAreOfTasks(front, last.id);
        var i :| 0 <= i < |front| && front[i].id == last.id;
        assert ts[i].id == ts[|ts| - 1].id;
        assert Ids(ts) == Ids(front);
      } else {
        forall i | 0 <= i < |front| ensures ts[i].id != last.id { IdsAt(front, i); }
        assert NoDuplicates(front) <==> NoDuplicates(ts) by {
          assert ts == front + [last];
        }
      }
    }
  }

  /** The last record with an id is the one kept. */
  lemma {:induction false} PutAllHolds(ts: seq<Task>, i: nat)
    requires i < |ts| && forall j :: i < j < |ts| ==> ts[j].id != ts[i].id
    ensures ts[i].id in PutAll(map[], ts) && PutAll(map[], ts)[ts[i].id] == ts[i]
  {
    if i < |ts| - 1 {
      PutAllHolds(ts[..|ts| - 1], i);
      assert ts[i].id != ts[|ts| - 1].id;
    }
  }

  lemma {:induction false} OnceEach(ts: seq<Task>, t: Task)
    requires NoDuplicates(ts)
    ensures multiset(ts)[t] == if t in ts then 1 else 0
  {
    if ts != [] {
      var front, last := ts[..|ts| - 1], ts[|ts| - 1];
      OnceEach(front, t);
      assert ts == front + [last];
      assert last !in front;
    }
  }

  lemma ListedMembers(ts: seq<Task>, us: seq<Task>)
    requires NoDuplicates(ts) && Lists(us, PutAll(map[], ts))
    ensures forall t :: t in us <==> t in ts
  {
    var tasks := PutAll(map[], ts);
    PutAllKeys(ts);
    ListsIndexed(us, tasks);
    forall t ensures t in us <==> t in ts {
      if t in us {
        var i :| 0 <= i < |us| && us[i] == t;
        IdsAreOfTasks(ts, t.id);
        var j :| 0 <= j < |ts| && ts[j].id == t.id;
        PutAllHolds(ts, j);
      }
      if t in ts {
        var j :| 0 <= j < |ts| && ts[j] == t;
        PutAllHolds(ts, j);
        IdsAreOfTasks(us, t.id);
        var i :| 0 <= i < |us| && us[i].id == t.id;
        assert us[i] == t;
      }
    }
  }

  /** Import does not validate: of several records with one id the last is stored. */
  lemma ImportKeepsLast(gs: GenesisState, i: nat)
    requires i < |gs.tasks| && forall j :: i < j < |gs.tasks| ==> gs.tasks[j].id != gs.tasks[i].id
    ensures WellFormed(ImportGenesis(map[], gs))
    ensures LookupTask(ImportGenesis(map[], gs), gs.tasks[i].id) == Found(gs.tasks[i])
  {
    hide WellFormed, Abs, ImportGenesis, LookupTask;
    EmptyIsWellFormed();
    ImportRefines(map[], gs);
    PutAllHolds(gs.tasks, i);
    LookupIsAbs(ImportGenesis(map[], gs), gs.tasks[i].id);
  }

  // ---------- Round trips ----------

  /** Importing into an empty store and exporting returns the same counter and a listing
      by id; it is the same collection of tasks for every genesis Validate accepts, and
      it has as many tasks only for those. */
  lemma GenesisRoundTrip(gs: GenesisState)
    ensures WellFormed(ImportGenesis(map[], gs))
    ensures var out := ExportedGenesis(ImportGenesis(map[], gs));
      && out.nextTaskId == gs.nextTaskId
      && Increasing(out.tasks)
      && (NoDuplicates(gs.tasks) ==> multiset(out.tasks) == multiset(gs.tasks))
      && (|out.tasks| == |gs.tasks| <==> NoDuplicates(gs.tasks))
  {
    hide WellFormed, Abs, ScanAll, ImportGenesis;
    EmptyIsWellFormed();
    ImportRefines(map[], gs);
    var store := ImportGenesis(map[], gs);
    ScanListsTasks(store);
    var us, tasks := ScanAll(store).0, PutAll(map[], gs.tasks);
    ListsIndexed(us, tasks);
    PutAllKeys(gs.tasks);
    DistinctCount(gs.tasks);
    IncreasingIsDistinct(us);
    DistinctCount(us);
    if NoDuplicates(gs.tasks) {
      ListedMembers(gs.tasks, us);
      forall t ensures multiset(us)[t] == multiset(gs.tasks)[t] {
        OnceEach(us, t);
        OnceEach(gs.tasks, t);
      }
    }
  }

  lemma IncreasingIsDistinct(ts: seq<Task>)
    requires Increasing(ts)
    ensures NoDuplicates(ts)
  {
  }

  lemma {:induction false} ListsPutAll(ts: seq<Task>, tasks: map<uint64, Task>)
    requires Lists(ts, tasks)
    ensures PutAll(map[], ts) == tasks
  {
    if ts != [] {
      var last := ts[|ts| - 1];
      ListsPutAll(ts[..|ts| - 1], tasks - {last.id});
      assert (tasks - {last.id})[last.id := last] == tasks;
    }
  }

  /** Exporting any well-formed store and importing into an empty one yields a store that
      stands for the same registry. */
  lemma ExportImport(store: Store)
    requires WellFormed(store)
    ensures WellFormed(ImportGenesis(map[], ExportedGenesis(store)))
    ensures Abs(ImportGenesis(map[], ExportedGenesis(store))) == Abs(store)
  {
    hide WellFormed, Abs, ScanAll, ImportGenesis;
    EmptyIsWellFormed();
    ScanListsTasks(store);
    ListsPutAll(ScanAll(store).0, Abs(store).tasks);
    ImportRefines(map[], ExportedGenesis(store));
  }

  // ---------- What Validate does not check ----------

  lemma ImportedRecord(gs: GenesisState, i: nat)
    requires NoDuplicates(gs.tasks) && i < |gs.tasks|
    ensures WellFormed(ImportGenesis(map[], gs))
    ensures var r := Abs(ImportGenesis(map[], gs));
      Keyed(r.tasks) && r.next == gs.nextTaskId && gs.tasks[i].id in r.tasks && r.tasks[gs.tasks[i].id] == gs.tasks[i]
  {
    hide WellFormed, Abs, ImportGenesis;
    EmptyIsWellFormed();
    ImportRefines(map[], gs);
    PutAllKeys(gs.tasks);
    PutAllHolds(gs.tasks, i);
  }

  /** After importing a valid genesis, a run creates over an imported task exactly when
      its id lies in the window the counter will hand out. A task not created over is
      still stored as a legal successor of the imported record; one created over has
      become a task the run created. */
  lemma ImportedTaskKeptIff(gs: GenesisState, ms: seq<Msg>, i: nat)
    requires NoDuplicates(gs.tasks) && i < |gs.tasks|
    ensures var before := ImportGenesis(map[], gs); var id := gs.tasks[i].id;
      && WellFormed(before) && WellFormed(StoreRun(before, ms))
      && Abs(before).next == gs.nextTaskId
      && id in Abs(before).tasks && Abs(before).tasks[id] == gs.tasks[i]
      && (CreatedOver(Abs(before), ms, id) <==> InWindow(gs.nextTaskId, Creates(ms), id))
      && id in Abs(StoreRun(before, ms)).tasks
      && var t := Abs(StoreRun(before, ms)).tasks[id];
         if CreatedOver(Abs(before), ms, id)
         then exists p :: 0 <= p < |ms| && ms[p].Create? && Evolves(NewTask(id, ms[p].c), t)
         else Evolves(gs.tasks[i], t)
  {
    hide WellFormed, Abs, ImportGenesis, StoreRun, Run, InWindow, CreatedOver, Evolves;
    var before := ImportGenesis(map[], gs);
    ImportedRecord(gs, i);
    RunRefines(before, ms);
    var r, id := Abs(before), gs.tasks[i].id;
    CreatedOverIff(r, ms, id);
    if CreatedOver(r, ms, id) { CreatedOverReplaces(r, ms, id); } else { RunEvolves(r, ms, id); }
  }

  /** Counted: exactly when no imported id lies in that window, the number of tasks after
      the run is the number imported plus the number created. */
  lemma ImportedCountIff(gs: GenesisState, ms: seq<Msg>)
    requires NoDuplicates(gs.tasks)
    ensures WellFormed(ImportGenesis(map[], gs))
    ensures |Run(Abs(ImportGenesis(map[], gs)), ms).tasks| == |gs.tasks| + Creates(ms) <==>
      Creates(ms) <= TWO_64 && forall i :: 0 <= i < |gs.tasks| ==> !InWindow(gs.nextTaskId, Creates(ms), gs.tasks[i].id)
  {
    hide WellFormed, Abs, ImportGenesis, Run, InWindow;
    EmptyIsWellFormed();
    ImportRefines(map[], gs);
    var r := Registry(PutAll(map[], gs.tasks), gs.nextTaskId);
    PutAllKeys(gs.tasks);
    DistinctCount(gs.tasks);
    NoTaskLostIff(r, ms);
    assert |r.tasks| == |r.tasks.Keys|;
    forall i | 0 <= i < |gs.tasks| ensures gs.tasks[i].id in r.tasks.Keys { IdsAt(gs.tasks, i); }
    forall id | id in r.tasks.Keys ensures exists i :: 0 <= i < |gs.tasks| && gs.tasks[i].id == id {
      IdsAreOfTasks(gs.tasks, id);
    }
  }

  /** A genesis that Validate accepts and whose first CreateTask destroys a task. */
  lemma ValidGenesisCanLoseTask(t: Task, c: MsgCreateTask)
    requires t.id == 1
    ensures NoDuplicates([t])
    ensures var before := ImportGenesis(map[], GenesisState([t], 1)); var after := StoreRun(before, [Create(c)]);
      && WellFormed(before) && Abs(before).tasks == map[1 := t]
      && WellFormed(after) && Abs(after).tasks == map[1 := NewTask(1, c)]
  {
    hide WellFormed, Abs, ImportGenesis, StoreRun, Run;
    var before := ImportGenesis(map[], GenesisState([t], 1));
    EmptyIsWellFormed();
    ImportRefines(map[], GenesisState([t], 1));
    assert [t][..0] == [];
    assert PutAll(map[], [t]) == map[1 := t];
    RunRefines(before, [Create(c)]);
    RunOne(Abs(before), Create(c));
  }

  const DEFAULT_GENESIS := GenesisState([], 1)

  /** From the default genesis, at the level of stored bytes: no message panics the
      store out of shape, the ids are 1..next-1 exactly while fewer than 2^64 - 1 tasks
      were created, and until then the statuses add up to the successful messages. */
  lemma DefaultGenesisRun(ms: seq<Msg>)
    ensures WellFormed(StoreRun(ImportGenesis(map[], DEFAULT_GENESIS), ms))
    ensures var r := Abs(StoreRun(ImportGenesis(map[], DEFAULT_GENESIS), ms));
      && (Numbered(r) <==> Creates(ms) < TWO_64 - 1)
      && (Creates(ms) < TWO_64 - 1 ==> StatusSum(r.tasks) == Successes(DEFAULT_REGISTRY, ms))
  {
    hide WellFormed, Abs, ImportGenesis, StoreRun, Run, Numbered, StatusSum, Successes;
    EmptyIsWellFormed();
    ImportRefines(map[], DEFAULT_GENESIS);
    RunRefines(ImportGenesis(map[], DEFAULT_GENESIS), ms);
    NumberedIff(ms);
    if Creates(ms) < TWO_64 - 1 {
      StatusAccounting(DEFAULT_REGISTRY, ms);
      NoStatuses();
    }
  }

  /** The life of a task on stored bytes: from the default genesis, while fewer than
      2^64 - 1 tasks are created in all, a task once stored stays and only evolves; it is
      stored exactly when its create is in the run; its record is what the later messages
      tell; and it is COMPLETED exactly when its create, its creator's first assign and a
      completion by that assignee are in the run in this order. */
  lemma DefaultTaskLife(a: seq<Msg>, b: seq<Msg>, id: uint64)
    requires Creates(a + b) < TWO_64 - 1
    ensures var genesis := ImportGenesis(map[], DEFAULT_GENESIS); var ms := a + b;
      && WellFormed(StoreRun(genesis, a)) && WellFormed(StoreRun(genesis, ms))
      && var before, after := Abs(StoreRun(genesis, a)).tasks, Abs(StoreRun(genesis, ms)).tasks;
         && (id in before ==> id in after && Evolves(before[id], after[id]))
         && (id in after <==> exists p: nat :: Born(ms, p, id))
         && (forall p: nat :: Born(ms, p, id) ==> id in after && Tells(ms, p, id, after[id]))
         && (id in after && after[id].status == 3 <==> exists p: nat, i: nat, j: nat :: Finished(ms, id, p, i, j))
  {
    hide WellFormed, Abs, ImportGenesis, StoreRun, Run, Evolves, Born, Tells, Finished, Creates;
    EmptyIsWellFormed();
    var genesis := ImportGenesis(map[], DEFAULT_GENESIS);
    ImportRefines(map[], DEFAULT_GENESIS);
    RunRefines(genesis, a);
    RunRefines(genesis, a + b);
    if id in Run(DEFAULT_REGISTRY, a).tasks { DefaultEvolves(a, b, id); }
    DefaultLife(a + b, id);
    CompletedIff(a + b, id);
  }

  lemma NoStatuses()
    ensures StatusSum(map[]) == 0
  {
  }
}
