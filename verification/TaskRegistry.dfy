/** The task registry as a state machine over a plain map and a counter, and what
    every run of it keeps. */
module TaskRegistry {
  import opened Bytes
  import opened TaskCodec
  import opened MapSums

  datatype Registry = Registry(tasks: map<uint64, Task>, next: uint64)

  datatype Msg =
    | Create(c: MsgCreateTask)
    | Assign(a: MsgAssignTask)
    | Complete(k: MsgCompleteTask)

  datatype Reply = Created(id: uint64) | Done | TaskNotFound | Unauthorized | InvalidStatus | Panicked

  function Inc(id: uint64): uint64 {
    if id + 1 == TWO_64 then 0 else id + 1
  }

  function NewTask(id: uint64, c: MsgCreateTask): Task {
    Task(id, c.title, c.description, c.creator, [], STATUS_OPEN)
  }

  /** The reply of AssignTask or CompleteTask on the record found, and the record they write. */
  function Amend(t: Task, m: Msg): (Task, Reply)
    requires !m.Create?
  {
    match m
    case Assign(a) =>
      if t.creator != a.creator then (t, Unauthorized)
      else if t.status != STATUS_OPEN then (t, InvalidStatus)
      else (t.(assignee := a.assignee, status := STATUS_ASSIGNED), Done)
    case Complete(k) =>
      if t.assignee != k.assignee then (t, Unauthorized)
      else if t.status != STATUS_ASSIGNED then (t, InvalidStatus)
      else (t.(status := STATUS_COMPLETED), Done)
  }

  function TaskIdOf(m: Msg): uint64
    requires !m.Create?
  {
    if m.Assign? then m.a.taskId else m.k.taskId
  }

  /** An amended record is written under the id it carries. */
  function Step(r: Registry, m: Msg): (Registry, Reply) {
    if m.Create? then
      (Registry(r.tasks[r.next := NewTask(r.next, m.c)], Inc(r.next)), Created(r.next))
    else if TaskIdOf(m) !in r.tasks then (r, TaskNotFound)
    else
      var (t, reply) := Amend(r.tasks[TaskIdOf(m)], m);
      if reply.Done? then (r.(tasks := r.tasks[t.id := t]), Done) else (r, reply)
  }

  function Run(r: Registry, ms: seq<Msg>): Registry
    decreases |ms|
  {
    if ms == [] then r else Run(Step(r, ms[0]).0, ms[1..])
  }

  ghost predicate Keyed(tasks: map<uint64, Task>) {
    forall id :: id in tasks ==> tasks[id].id == id
  }

  function Creates(ms: seq<Msg>): nat {
    if ms == [] then 0 else (if ms[0].Create? then 1 else 0) + Creates(ms[1..])
  }

  function Successes(r: Registry, ms: seq<Msg>): nat
    decreases |ms|
  {
    if ms == [] then 0
    else
      var (r', reply) := Step(r, ms[0]);
      (if reply.Created? || reply.Done? then 1 else 0) + Successes(r', ms[1..])
  }

  lemma {:induction false} RunConcat(r: Registry, a: seq<Msg>, b: seq<Msg>)
    ensures Run(r, a + b) == Run(Run(r, a), b)
    decreases |a|
  {
    if a == [] {
      assert a + b == b;
    } else {
      RunConcat(Step(r, a[0]).0, a[1..], b);
      assert (a + b)[1..] == a[1..] + b;
    }
  }

  lemma {:induction false} RunKeepsKeyed(r: Registry, ms: seq<Msg>)
    requires Keyed(r.tasks)
    ensures Keyed(Run(r, ms).tasks)
    decreases |ms|
  {
    if ms != [] { RunKeepsKeyed(Step(r, ms[0]).0, ms[1..]); }
  }

  lemma AmendStep(r: Registry, m: Msg)
    requires Keyed(r.tasks) && !m.Create?
    ensures Step(r, m).0.next == r.next
    ensures forall id: uint64 :: id in r.tasks && id != TaskIdOf(m) ==>
      id in Step(r, m).0.tasks && Step(r, m).0.tasks[id] == r.tasks[id]
    ensures TaskIdOf(m) !in r.tasks ==> Step(r, m) == (r, TaskNotFound)
    ensures TaskIdOf(m) in r.tasks ==>
      var (t, reply) := Amend(r.tasks[TaskIdOf(m)], m);
      Step(r, m) == (r.(tasks := r.tasks[TaskIdOf(m) := t]), reply)
  {
    if TaskIdOf(m) in r.tasks {
      assert r.tasks == r.tasks[TaskIdOf(m) := r.tasks[TaskIdOf(m)]];
    }
  }

  // ---------- The window of ids a run hands out ----------

  /** How many increments, with wrap-around, lead from n to x. */
  function Distance(n: uint64, x: uint64): nat {
    if x >= n then x - n else x - n + TWO_64
  }

  /** x is one of the c ids handed out from n on. */
  predicate InWindow(n: uint64, c: nat, x: uint64) {
    Distance(n, x) < c
  }

  lemma StepKeys(r: Registry, m: Msg)
    requires Keyed(r.tasks)
    ensures Keyed(Step(r, m).0.tasks)
    ensures m.Create? ==> Step(r, m).0.tasks.Keys == r.tasks.Keys + {r.next} && Step(r, m).0.next == Inc(r.next)
    ensures !m.Create? ==> Step(r, m).0.tasks.Keys == r.tasks.Keys && Step(r, m).0.next == r.next
  {
    if !m.Create? { AmendStep(r, m); }
  }

  lemma StepCount(r: Registry, m: Msg)
    requires Keyed(r.tasks)
    ensures |Step(r, m).0.tasks| == |r.tasks| + if m.Create? && r.next !in r.tasks then 1 else 0
  {
    StepKeys(r, m);
    hide Step;
    AddedKeysCount(r.tasks, Step(r, m).0.tasks, if m.Create? then {r.next} else {});
  }

  lemma AddedKeysCount(a: map<uint64, Task>, b: map<uint64, Task>, added: set<uint64>)
    requires b.Keys == a.Keys + added
    ensures |b| == |a| + |added - a.Keys|
  {
    assert |b.Keys| == |b| && |a.Keys| == |a|;
    assert a.Keys + added == a.Keys + (added - a.Keys);
  }

  lemma {:induction false} RunNext(r: Registry, ms: seq<Msg>)
    requires Keyed(r.tasks)
    ensures Run(r, ms).next == (r.next + Creates(ms)) % TWO_64
    decreases |ms|
  {
    if ms != [] {
      StepKeys(r, ms[0]);
      hide Step;
      RunNext(Step(r, ms[0]).0, ms[1..]);
    }
  }

  /** A run's keys are the old ones and exactly the window. */
  lemma {:induction false} RunKeys(r: Registry, ms: seq<Msg>)
    requires Keyed(r.tasks)
    ensures forall x: uint64 :: x in Run(r, ms).tasks.Keys <==> x in r.tasks.Keys || InWindow(r.next, Creates(ms), x)
    decreases |ms|
  {
    if ms != [] {
      StepKeys(r, ms[0]);
      hide Step;
      var r' := Step(r, ms[0]).0;
      RunKeys(r', ms[1..]);
      assert ms[0].Create? ==> forall x: uint64 :: x != r.next ==> Distance(r.next, x) == 1 + Distance(r'.next, x);
    }
  }

  /** Every CreateTask in the run uses an id that is free at that moment. */
  predicate AllFresh(r: Registry, ms: seq<Msg>)
    decreases |ms|
  {
    ms == [] || ((ms[0].Create? ==> r.next !in r.tasks) && AllFresh(Step(r, ms[0]).0, ms[1..]))
  }

  predicate WindowFree(r: Registry, c: nat) {
    c <= TWO_64 && forall x :: x in r.tasks.Keys ==> !InWindow(r.next, c, x)
  }

  lemma WindowStep(r: Registry, m: Msg, c: nat)
    requires Keyed(r.tasks)
    ensures m.Create? ==> (WindowFree(r, c + 1) <==> r.next !in r.tasks && WindowFree(Step(r, m).0, c))
    ensures !m.Create? ==> (WindowFree(r, c) <==> WindowFree(Step(r, m).0, c))
  {
    StepKeys(r, m);
    hide Step;
    var r' := Step(r, m).0;
    if m.Create? {
      assert Distance(r'.next, r.next) == TWO_64 - 1;
      assert forall x: uint64 :: x != r.next ==> Distance(r.next, x) == 1 + Distance(r'.next, x);
      assert r.next in r'.tasks.Keys;
    }
  }

  /** CreateTask never reuses an id exactly when no stored id lies in the (wrapping)
      window of ids the run will hand out. */
  lemma {:induction false} FreshIff(r: Registry, ms: seq<Msg>)
    requires Keyed(r.tasks)
    ensures AllFresh(r, ms) <==> WindowFree(r, Creates(ms))
    decreases |ms|
  {
    if ms != [] {
      StepKeys(r, ms[0]);
      WindowStep(r, ms[0], Creates(ms[1..]));
      hide Step, WindowFree;
      FreshIff(Step(r, ms[0]).0, ms[1..]);
    }
  }

  /** Exactly then no record is lost to an overwrite. */
  lemma {:induction false} NoTaskLostIff(r: Registry, ms: seq<Msg>)
    requires Keyed(r.tasks)
    ensures |Run(r, ms).tasks| <= |r.tasks| + Creates(ms)
    ensures |Run(r, ms).tasks| == |r.tasks| + Creates(ms) <==> WindowFree(r, Creates(ms))
    decreases |ms|
  {
    if ms != [] {
      WindowStep(r, ms[0], Creates(ms[1..]));
      StepKeys(r, ms[0]);
      StepCount(r, ms[0]);
      hide Step, WindowFree;
      NoTaskLostIff(Step(r, ms[0]).0, ms[1..]);
    }
  }

  // ---------- Numbering from the default genesis ----------

  const DEFAULT_REGISTRY := Registry(map[], 1)

  /** The stored ids are exactly 1..next-1. */
  ghost predicate Numbered(r: Registry) {
    forall x: uint64 :: x in r.tasks.Keys <==> 1 <= x < r.next
  }

  /** From the default genesis the ids stay 1..next-1 exactly as long as fewer than
      2^64 - 1 tasks have been created. */
  lemma NumberedIff(ms: seq<Msg>)
    ensures Numbered(Run(DEFAULT_REGISTRY, ms)) <==> Creates(ms) < TWO_64 - 1
  {
    var r := Run(DEFAULT_REGISTRY, ms);
    RunKeys(DEFAULT_REGISTRY, ms);
    RunNext(DEFAULT_REGISTRY, ms);
    var c := Creates(ms);
    if c < TWO_64 - 1 {
      assert r.next == 1 + c;
    } else if c == TWO_64 - 1 {
      assert InWindow(1, c, 1) && r.next == 0;
      assert 1 in r.tasks.Keys;
    } else {
      assert InWindow(1, c, 0);
      assert 0 in r.tasks.Keys;
    }
  }

  // ---------- One task's life ----------

  /** What may become of a record while it is not overwritten: its identity is fixed,
      its status only advances, and the assignee changes only on leaving OPEN. */
  predicate Evolves(t: Task, t': Task) {
    && t'.id == t.id && t'.title == t.title && t'.description == t.description && t'.creator == t.creator
    && (|| t' == t
        || (t.status == STATUS_OPEN && t'.status in {STATUS_ASSIGNED, STATUS_COMPLETED})
        || (t.status == STATUS_ASSIGNED && t'.status == STATUS_COMPLETED && t'.assignee == t.assignee))
  }

  predicate Names(m: Msg, id: uint64) {
    !m.Create? && TaskIdOf(m) == id
  }

  function Naming(ms: seq<Msg>, id: uint64): seq<Msg> {
    if ms == [] then []
    else (if Names(ms[0], id) then [ms[0]] else []) + Naming(ms[1..], id)
  }

  /** One message changes the record of `id` only if it names it, or creates over it. */
  lemma StepFrame(r: Registry, m: Msg, id: uint64)
    requires Keyed(r.tasks) && id in r.tasks && (m.Create? ==> r.next != id)
    ensures Keyed(Step(r, m).0.tasks) && id in Step(r, m).0.tasks
    ensures Step(r, m).0.tasks[id] == if Names(m, id) then Amend(r.tasks[id], m).0 else r.tasks[id]
    ensures Evolves(r.tasks[id], Step(r, m).0.tasks[id])
  {
  }

  lemma WindowFrame(r: Registry, m: Msg, c: nat, id: uint64)
    requires !InWindow(r.next, Creates([m]) + c, id)
    ensures m.Create? ==> r.next != id
    ensures !InWindow(Step(r, m).0.next, c, id)
  {
    assert [m][1..] == [];
    assert Creates([m]) == (if m.Create? then 1 else 0) + Creates([]);
  }

  /** An existing task outside the run's window ends as a legal successor of itself. */
  lemma {:induction false} RunEvolves(r: Registry, ms: seq<Msg>, id: uint64)
    requires Keyed(r.tasks) && id in r.tasks && !InWindow(r.next, Creates(ms), id)
    ensures id in Run(r, ms).tasks && Evolves(r.tasks[id], Run(r, ms).tasks[id])
    decreases |ms|
  {
    if ms != [] {
      WindowFrame(r, ms[0], Creates(ms[1..]), id);
      StepFrame(r, ms[0], id);
      RunEvolves(Step(r, ms[0]).0, ms[1..], id);
    }
  }

  /** Slicing, against any registry that agrees on the one record. */
  lemma {:induction false} SliceFrom(r: Registry, s: Registry, ms: seq<Msg>, id: uint64)
    requires Keyed(r.tasks) && Keyed(s.tasks) && id in r.tasks && id in s.tasks && r.tasks[id] == s.tasks[id]
    requires !InWindow(r.next, Creates(ms), id)
    ensures id in Run(r, ms).tasks && id in Run(s, Naming(ms, id)).tasks
    ensures Run(r, ms).tasks[id] == Run(s, Naming(ms, id)).tasks[id]
    decreases |ms|
  {
    if ms != [] {
      var m, rest := ms[0], ms[1..];
      WindowFrame(r, m, Creates(rest), id);
      StepFrame(r, m, id);
      if Names(m, id) {
        StepFrame(s, m, id);
        SliceFrom(Step(r, m).0, Step(s, m).0, rest, id);
        assert Naming(ms, id)[1..] == Naming(rest, id);
      } else {
        SliceFrom(Step(r, m).0, s, rest, id);
        assert Naming(ms, id) == Naming(rest, id);
      }
    }
  }

  /** The final record of an existing task is what the messages naming it make of it. */
  lemma RunSlices(r: Registry, ms: seq<Msg>, id: uint64)
    requires Keyed(r.tasks) && id in r.tasks && !InWindow(r.next, Creates(ms), id)
    ensures id in Run(r, ms).tasks && id in Run(r, Naming(ms, id)).tasks
    ensures Run(r, ms).tasks[id] == Run(r, Naming(ms, id)).tasks[id]
  {
    SliceFrom(r, r, ms, id);
  }

  /** Messages to different tasks commute, replies included. */
  lemma AmendsCommute(r: Registry, x: Msg, y: Msg)
    requires Keyed(r.tasks) && !x.Create? && !y.Create? && TaskIdOf(x) != TaskIdOf(y)
    ensures Step(Step(r, x).0, y) == (Step(Step(r, y).0, x).0, Step(r, y).1)
    ensures Step(Step(r, y).0, x).1 == Step(r, x).1
  {
    RunKeepsKeyed(r, [x]);
    RunKeepsKeyed(r, [y]);
    AmendStep(r, x);
    AmendStep(r, y);
    AmendStep(Step(r, x).0, y);
    AmendStep(Step(r, y).0, x);
    hide Step, Amend;
    if TaskIdOf(x) in r.tasks && TaskIdOf(y) in r.tasks {
      var tx, ty := Amend(r.tasks[TaskIdOf(x)], x).0, Amend(r.tasks[TaskIdOf(y)], y).0;
      assert r.tasks[TaskIdOf(x) := tx][TaskIdOf(y) := ty] == r.tasks[TaskIdOf(y) := ty][TaskIdOf(x) := tx];
    }
  }

  /** CreateTask commutes with any message that does not name the id it is about to use. */
  lemma CreateCommutes(r: Registry, c: MsgCreateTask, y: Msg)
    requires Keyed(r.tasks) && !y.Create? && TaskIdOf(y) != r.next
    ensures Step(Step(r, Create(c)).0, y) == (Step(Step(r, y).0, Create(c)).0, Step(r, y).1)
    ensures Step(Step(r, y).0, Create(c)).1 == Step(r, Create(c)).1
  {
    AmendStep(r, y);
    AmendStep(Step(r, Create(c)).0, y);
    hide Amend;
    if TaskIdOf(y) in r.tasks {
      var t, n := Amend(r.tasks[TaskIdOf(y)], y).0, NewTask(r.next, c);
      assert r.tasks[r.next := n][TaskIdOf(y) := t] == r.tasks[TaskIdOf(y) := t][r.next := n];
    }
  }

  /** A task that went from OPEN to COMPLETED was assigned by its creator and later
      completed by the assignee chosen then. */
  lemma {:induction false} CompletionHasCause(r: Registry, ms: seq<Msg>, id: uint64)
    requires Keyed(r.tasks) && id in r.tasks && !InWindow(r.next, Creates(ms), id)
    requires r.tasks[id].status == STATUS_OPEN
    requires id in Run(r, ms).tasks && Run(r, ms).tasks[id].status == STATUS_COMPLETED
    ensures var who := Run(r, ms).tasks[id].assignee;
      exists i, j :: 0 <= i < j < |ms|
        && ms[i] == Assign(MsgAssignTask(r.tasks[id].creator, id, who))
        && ms[j] == Complete(MsgCompleteTask(who, id))
    decreases |ms|
  {
    var m, rest := ms[0], ms[1..];
    WindowFrame(r, m, Creates(rest), id);
    StepFrame(r, m, id);
    var r' := Step(r, m).0;
    var who := Run(r, ms).tasks[id].assignee;
    if r'.tasks[id].status == STATUS_OPEN {
      CompletionHasCause(r', rest, id);
      var i, j :| 0 <= i < j < |rest|
        && rest[i] == Assign(MsgAssignTask(r.tasks[id].creator, id, who))
        && rest[j] == Complete(MsgCompleteTask(who, id));
      assert ms[i + 1] == rest[i] && ms[j + 1] == rest[j];
    } else {
      RunEvolves(r', rest, id);
      AssignedIsCompletedByAssignee(r', rest, id);
      var j :| 0 <= j < |rest| && rest[j] == Complete(MsgCompleteTask(who, id));
      assert ms[0] == Assign(MsgAssignTask(r.tasks[id].creator, id, who));
      assert ms[j + 1] == rest[j];
    }
  }

  lemma {:induction false} AssignedIsCompletedByAssignee(r: Registry, ms: seq<Msg>, id: uint64)
    requires Keyed(r.tasks) && id in r.tasks && !InWindow(r.next, Creates(ms), id)
    requires r.tasks[id].status == STATUS_ASSIGNED
    requires id in Run(r, ms).tasks && Run(r, ms).tasks[id].status == STATUS_COMPLETED
    ensures exists j :: 0 <= j < |ms| && ms[j] == Complete(MsgCompleteTask(r.tasks[id].assignee, id))
    decreases |ms|
  {
    var m, rest := ms[0], ms[1..];
    WindowFrame(r, m, Creates(rest), id);
    StepFrame(r, m, id);
    var r' := Step(r, m).0;
    if r'.tasks[id].status == STATUS_ASSIGNED {
      AssignedIsCompletedByAssignee(r', rest, id);
      var j :| 0 <= j < |rest| && rest[j] == Complete(MsgCompleteTask(r.tasks[id].assignee, id));
      assert ms[j + 1] == rest[j];
    } else {
      assert ms[0] == Complete(MsgCompleteTask(r.tasks[id].assignee, id));
    }
  }

  // ---------- Creating over a stored id ----------

  /** Some create in the run hands out `id`. */
  predicate CreatedOver(r: Registry, ms: seq<Msg>, id: uint64)
    decreases |ms|
  {
    ms != [] && ((ms[0].Create? && r.next == id) || CreatedOver(Step(r, ms[0]).0, ms[1..], id))
  }

  /** The window holds exactly the ids handed out. */
  lemma {:induction false} CreatedOverIff(r: Registry, ms: seq<Msg>, id: uint64)
    requires Keyed(r.tasks)
    ensures CreatedOver(r, ms, id) <==> InWindow(r.next, Creates(ms), id)
    decreases |ms|
  {
    if ms != [] {
      StepKeys(r, ms[0]);
      hide Step;
      CreatedOverIff(Step(r, ms[0]).0, ms[1..], id);
    }
  }

  /** The record of an id that was created over is what became of the last such create. */
  lemma {:induction false} CreatedOverReplaces(r: Registry, ms: seq<Msg>, id: uint64)
    requires Keyed(r.tasks) && CreatedOver(r, ms, id)
    ensures id in Run(r, ms).tasks
    ensures exists p :: 0 <= p < |ms| && ms[p].Create? && Evolves(NewTask(id, ms[p].c), Run(r, ms).tasks[id])
    decreases |ms|
  {
    var r', rest := Step(r, ms[0]).0, ms[1..];
    StepKeys(r, ms[0]);
    if CreatedOver(r', rest, id) {
      hide Step, Evolves;
      CreatedOverReplaces(r', rest, id);
      var p :| 0 <= p < |rest| && rest[p].Create? && Evolves(NewTask(id, rest[p].c), Run(r', rest).tasks[id]);
      assert ms[p + 1] == rest[p];
    } else {
      CreatedOverIff(r', rest, id);
      RunEvolves(r', rest, id);
      assert Evolves(NewTask(id, ms[0].c), Run(r, ms).tasks[id]);
    }
  }

  // ---------- A task's life from the default genesis ----------

  lemma {:induction false} CreatesConcat(a: seq<Msg>, b: seq<Msg>)
    ensures Creates(a + b) == Creates(a) + Creates(b)
  {
    if a == [] {
      assert a + b == b;
    } else {
      CreatesConcat(a[1..], b);
      assert (a + b)[1..] == a[1..] + b;
    }
  }

  /** Below the limit no later create reaches an id already handed out. */
  lemma DefaultWindow(a: seq<Msg>, b: seq<Msg>, id: uint64)
    requires Creates(a) + Creates(b) < TWO_64 - 1 && id in Run(DEFAULT_REGISTRY, a).tasks
    ensures Keyed(Run(DEFAULT_REGISTRY, a).tasks)
    ensures !InWindow(Run(DEFAULT_REGISTRY, a).next, Creates(b), id)
  {
    hide Run;
    RunKeepsKeyed(DEFAULT_REGISTRY, a);
    NumberedIff(a);
    RunNext(DEFAULT_REGISTRY, a);
    assert id in Run(DEFAULT_REGISTRY, a).tasks.Keys;
  }

  /** From the default genesis every task ever stored stays, and only evolves, as long as
      fewer than 2^64 - 1 tasks are created in all. */
  lemma DefaultEvolves(a: seq<Msg>, b: seq<Msg>, id: uint64)
    requires Creates(a + b) < TWO_64 - 1 && id in Run(DEFAULT_REGISTRY, a).tasks
    ensures id in Run(DEFAULT_REGISTRY, a + b).tasks
    ensures Evolves(Run(DEFAULT_REGISTRY, a).tasks[id], Run(DEFAULT_REGISTRY, a + b).tasks[id])
  {
    hide Run, Evolves, InWindow;
    CreatesConcat(a, b);
    RunConcat(DEFAULT_REGISTRY, a, b);
    DefaultWindow(a, b, id);
    RunEvolves(Run(DEFAULT_REGISTRY, a), b, id);
  }

  lemma RunOne(r: Registry, m: Msg)
    ensures Run(r, [m]) == Step(r, m).0
  {
    assert [m][1..] == [];
  }

  /** Every stored task was created by a message of the run, under the id it has. */
  lemma {:induction false} Birth(ms: seq<Msg>, id: uint64) returns (p: nat)
    requires id in Run(DEFAULT_REGISTRY, ms).tasks
    ensures p < |ms| && ms[p].Create? && Run(DEFAULT_REGISTRY, ms[..p]).next == id
    decreases |ms|
  {
    var front, last := ms[..|ms| - 1], ms[|ms| - 1];
    assert ms == front + [last];
    RunConcat(DEFAULT_REGISTRY, front, [last]);
    var before := Run(DEFAULT_REGISTRY, front);
    RunOne(before, last);
    RunKeepsKeyed(DEFAULT_REGISTRY, front);
    StepKeys(before, last);
    hide Run, Step;
    if id in before.tasks {
      p := Birth(front, id);
      assert front[..p] == ms[..p];
    } else {
      assert id in Step(before, last).0.tasks.Keys && id !in before.tasks.Keys;
      p := |ms| - 1;
    }
  }

  lemma AfterBirth(ms: seq<Msg>, id: uint64, p: nat)
    requires p < |ms| && ms[p].Create? && Run(DEFAULT_REGISTRY, ms[..p]).next == id
    ensures var r := Run(DEFAULT_REGISTRY, ms[..p + 1]);
      id in r.tasks && r.tasks[id] == NewTask(id, ms[p].c)
    ensures Run(DEFAULT_REGISTRY, ms) == Run(Run(DEFAULT_REGISTRY, ms[..p + 1]), ms[p + 1..])
    ensures Creates(ms) == Creates(ms[..p + 1]) + Creates(ms[p + 1..])
  {
    assert ms[..p + 1] == ms[..p] + [ms[p]] && ms == ms[..p + 1] + ms[p + 1..];
    RunConcat(DEFAULT_REGISTRY, ms[..p], [ms[p]]);
    RunOne(Run(DEFAULT_REGISTRY, ms[..p]), ms[p]);
    RunConcat(DEFAULT_REGISTRY, ms[..p + 1], ms[p + 1..]);
    CreatesConcat(ms[..p + 1], ms[p + 1..]);
    hide Run, Creates;
  }

  // ---------- Accounting ----------

  function StatusOf(id: uint64, t: Task): int {
    t.status
  }

  ghost function StatusSum(tasks: map<uint64, Task>): int {
    Sum(tasks, StatusOf)
  }

  /** The statuses of the records that creates in the run overwrite. */
  function Overwritten(r: Registry, ms: seq<Msg>): int
    decreases |ms|
  {
    if ms == [] then 0
    else
      (if ms[0].Create? && r.next in r.tasks then r.tasks[r.next].status else 0)
      + Overwritten(Step(r, ms[0]).0, ms[1..])
  }

  lemma StepSum(r: Registry, m: Msg)
    requires Keyed(r.tasks)
    ensures StatusSum(Step(r, m).0.tasks) == StatusSum(r.tasks)
      + (if Step(r, m).1.Created? || Step(r, m).1.Done? then 1 else 0)
      - (if m.Create? && r.next in r.tasks then r.tasks[r.next].status else 0)
  {
    if m.Create? {
      SumPut(r.tasks, StatusOf, r.next, NewTask(r.next, m.c));
    } else if TaskIdOf(m) in r.tasks {
      SumPut(r.tasks, StatusOf, TaskIdOf(m), Amend(r.tasks[TaskIdOf(m)], m).0);
    }
  }

  /** In every run each successful message raises the sum of the numeric statuses by
      exactly one, failed ones leave it alone, and only overwrites take away from it. */
  lemma {:induction false} StatusBalance(r: Registry, ms: seq<Msg>)
    requires Keyed(r.tasks)
    ensures StatusSum(Run(r, ms).tasks) == StatusSum(r.tasks) + Successes(r, ms) - Overwritten(r, ms)
    decreases |ms|
  {
    if ms != [] {
      StepKeys(r, ms[0]);
      hide Step, StatusSum;
      StepSum(r, ms[0]);
      StatusBalance(Step(r, ms[0]).0, ms[1..]);
    }
  }

  lemma {:induction false} NothingOverwritten(r: Registry, ms: seq<Msg>)
    requires AllFresh(r, ms)
    ensures Overwritten(r, ms) == 0
    decreases |ms|
  {
    if ms != [] { NothingOverwritten(Step(r, ms[0]).0, ms[1..]); }
  }

  /** While the window is free the sum of statuses counts the successful messages. */
  lemma StatusAccounting(r: Registry, ms: seq<Msg>)
    requires Keyed(r.tasks) && WindowFree(r, Creates(ms))
    ensures StatusSum(Run(r, ms).tasks) == StatusSum(r.tasks) + Successes(r, ms)
  {
    FreshIff(r, ms);
    NothingOverwritten(r, ms);
    StatusBalance(r, ms);
  }

  // ---------- Listing by id ----------

  /** `ts` is the records of `tasks`, each once, by increasing id: the last one has the
      greatest id and the others list the rest. */
  ghost predicate Lists(ts: seq<Task>, tasks: map<uint64, Task>) {
    if ts == [] then tasks == map[]
    else
      var last := ts[|ts| - 1];
      && last.id in tasks && tasks[last.id] == last
      && (forall id :: id in tasks ==> id <= last.id)
      && Lists(ts[..|ts| - 1], tasks - {last.id})
  }

  function Ids(ts: seq<Task>): set<uint64> {
    if ts == [] then {} else Ids(ts[..|ts| - 1]) + {ts[|ts| - 1].id}
  }

  ghost predicate Increasing(ts: seq<Task>) {
    forall i, j :: 0 <= i < j < |ts| ==> ts[i].id < ts[j].id
  }

  /** The same by positions. */
  ghost predicate ListsByIndex(ts: seq<Task>, tasks: map<uint64, Task>) {
    && Increasing(ts)
    && Ids(ts) == tasks.Keys
    && forall i :: 0 <= i < |ts| ==> ts[i].id in tasks.Keys && tasks[ts[i].id] == ts[i]
  }

  lemma {:induction false} IdsBelow(ts: seq<Task>, bound: uint64)
    requires forall i :: 0 <= i < |ts| ==> ts[i].id < bound
    ensures forall id :: id in Ids(ts) ==> id < bound
  {
    if ts != [] { IdsBelow(ts[..|ts| - 1], bound); }
  }

  lemma {:induction false} IdsAt(ts: seq<Task>, i: nat)
    requires i < |ts|
    ensures ts[i].id in Ids(ts)
  {
    if i < |ts| - 1 { IdsAt(ts[..|ts| - 1], i); }
  }

  lemma {:induction false} IndexedLists(ts: seq<Task>, tasks: map<uint64, Task>)
    requires ListsByIndex(ts, tasks)
    ensures Lists(ts, tasks)
  {
    if ts == [] {
      assert tasks.Keys == {};
    } else {
      var front, last := ts[..|ts| - 1], ts[|ts| - 1];
      IdsBelow(front, last.id);
      assert (tasks - {last.id}).Keys == Ids(front);
      IndexedLists(front, tasks - {last.id});
    }
  }

  lemma {:induction false} ListsIndexed(ts: seq<Task>, tasks: map<uint64, Task>)
    requires Lists(ts, tasks)
    ensures ListsByIndex(ts, tasks)
  {
    if ts != [] {
      var front, last := ts[..|ts| - 1], ts[|ts| - 1];
      ListsIndexed(front, tasks - {last.id});
      assert tasks.Keys == (tasks - {last.id}).Keys + {last.id};
      assert ts == front + [last];
    }
  }

  /** A registry has only one listing. */
  lemma {:induction false} ListsUnique(ts: seq<Task>, us: seq<Task>, tasks: map<uint64, Task>)
    requires Lists(ts, tasks) && Lists(us, tasks)
    ensures ts == us
    decreases |ts|
  {
    if ts != [] && us != [] {
      var a, b := ts[|ts| - 1], us[|us| - 1];
      assert a.id <= b.id && b.id <= a.id;
      ListsUnique(ts[..|ts| - 1], us[..|us| - 1], tasks - {a.id});
      assert ts == ts[..|ts| - 1] + [a] && us == us[..|us| - 1] + [b];
    }
  }

  /** While the counter exceeds every stored id, CreateTask appends to the listing. */
  lemma CreateAppends(r: Registry, c: MsgCreateTask, ts: seq<Task>)
    requires Lists(ts, r.tasks) && forall id :: id in r.tasks ==> id < r.next
    ensures Lists(ts + [NewTask(r.next, c)], Step(r, Create(c)).0.tasks)
  {
    var t := NewTask(r.next, c);
    assert (ts + [t])[..|ts|] == ts;
    assert r.tasks[r.next := t] - {r.next} == r.tasks;
  }
}
