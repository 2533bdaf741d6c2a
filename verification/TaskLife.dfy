/** A task's whole life read off the messages alone: what each message answers, and which
    record any run leaves. */
module TaskLife {
  import opened Bytes
  import opened ProtoWire
  import opened TaskCodec
  import opened TaskRegistry

  // ---------- What each message answers ----------

  /** CreateTask always succeeds, under the next id, with an open task nobody holds. */
  lemma CreateAnswers(r: Registry, c: MsgCreateTask)
    ensures var (r', reply) := Step(r, Create(c));
      && reply == Created(r.next)
      && r'.next == (r.next + 1) % TWO_64
      && r'.tasks == r.tasks[r.next := Task(r.next, c.title, c.description, c.creator, [], 1)]
  {
  }

  /** Exactly when AssignTask gives each answer, and that only success changes anything. */
  lemma AssignAnswers(r: Registry, a: MsgAssignTask)
    requires Keyed(r.tasks)
    ensures var (r', reply) := Step(r, Assign(a));
      if a.taskId !in r.tasks then (r', reply) == (r, TaskNotFound)
      else
        var t := r.tasks[a.taskId];
        && (reply == Unauthorized <==> t.creator != a.creator)
        && (reply == InvalidStatus <==> t.creator == a.creator && t.status != 1)
        && (reply == Done <==> t.creator == a.creator && t.status == 1)
        && r' == if reply != Done then r else r.(tasks := r.tasks[a.taskId :=
             Task(t.id, t.title, t.description, t.creator, a.assignee, 2)])
  {
    AmendStep(r, Assign(a));
  }

  lemma CompleteAnswers(r: Registry, k: MsgCompleteTask)
    requires Keyed(r.tasks)
    ensures var (r', reply) := Step(r, Complete(k));
      if k.taskId !in r.tasks then (r', reply) == (r, TaskNotFound)
      else
        var t := r.tasks[k.taskId];
        && (reply == Unauthorized <==> t.assignee != k.assignee)
        && (reply == InvalidStatus <==> t.assignee == k.assignee && t.status != 2)
        && (reply == Done <==> t.assignee == k.assignee && t.status == 2)
        && r' == if reply != Done then r else r.(tasks := r.tasks[k.taskId :=
             Task(t.id, t.title, t.description, t.creator, t.assignee, 3)])
  {
    AmendStep(r, Complete(k));
  }

  // ---------- From one record on ----------

  /** The message assigns t in the name of its creator. */
  predicate AssignsBy(m: Msg, t: Task) {
    m.Assign? && m.a.taskId == t.id && m.a.creator == t.creator
  }

  ghost predicate FirstAssign(ms: seq<Msg>, t: Task, i: nat) {
    i < |ms| && AssignsBy(ms[i], t) && forall k :: 0 <= k < i ==> !AssignsBy(ms[k], t)
  }

  ghost predicate NeverAssigned(ms: seq<Msg>, t: Task) {
    forall i :: 0 <= i < |ms| ==> !AssignsBy(ms[i], t)
  }

  function Completion(who: ByteString, id: uint64): Msg {
    Complete(MsgCompleteTask(who, id))
  }

  /** The record after assignment to `who`, completed or not. */
  function Assigned(t: Task, who: ByteString, completed: bool): Task {
    Task(t.id, t.title, t.description, t.creator, who, if completed then 3 else 2)
  }

  lemma {:induction false} DoneStays(r: Registry, ms: seq<Msg>, id: uint64)
    requires Keyed(r.tasks) && id in r.tasks && !InWindow(r.next, Creates(ms), id) && r.tasks[id].status == 3
    ensures id in Run(r, ms).tasks && Run(r, ms).tasks[id] == r.tasks[id]
    decreases |ms|
  {
    if ms != [] {
      WindowFrame(r, ms[0], Creates(ms[1..]), id);
      StepFrame(r, ms[0], id);
      DoneStays(Step(r, ms[0]).0, ms[1..], id);
    }
  }

  /** An assigned task is completed exactly when its assignee says so. */
  lemma {:induction false} AssignedLife(r: Registry, ms: seq<Msg>, id: uint64)
    requires Keyed(r.tasks) && id in r.tasks && !InWindow(r.next, Creates(ms), id) && r.tasks[id].status == 2
    ensures var t := r.tasks[id];
      id in Run(r, ms).tasks && Run(r, ms).tasks[id] == Assigned(t, t.assignee, Completion(t.assignee, id) in ms)
    decreases |ms|
  {
    if ms != [] {
      var m, rest, r' := ms[0], ms[1..], Step(r, ms[0]).0;
      WindowFrame(r, m, Creates(rest), id);
      StepFrame(r, m, id);
      assert ms == [m] + rest;
      hide Step, Run, InWindow;
      RunUnfold(r, ms);
      if m == Completion(r.tasks[id].assignee, id) {
        DoneStays(r', rest, id);
      } else {
        AssignedLife(r', rest, id);
      }
    }
  }

  lemma RunUnfold(r: Registry, ms: seq<Msg>)
    requires ms != []
    ensures Run(r, ms) == Run(Step(r, ms[0]).0, ms[1..])
  {
  }

  /** What the messages make of an open task: nothing until its creator first assigns it;
      from then on the first assignee holds it, and it is completed exactly when that one
      says so later. */
  ghost predicate Becomes(ms: seq<Msg>, t: Task, t': Task) {
    && (NeverAssigned(ms, t) ==> t' == t)
    && (forall i: nat :: FirstAssign(ms, t, i) ==>
          t' == Assigned(t, ms[i].a.assignee, Completion(ms[i].a.assignee, t.id) in ms[i + 1..]))
  }

  lemma BecomesAssigned(ms: seq<Msg>, t: Task)
    requires ms != [] && AssignsBy(ms[0], t)
    ensures Becomes(ms, t, Assigned(t, ms[0].a.assignee, Completion(ms[0].a.assignee, t.id) in ms[1..]))
  {
    assert forall i: nat :: FirstAssign(ms, t, i) ==> i == 0;
  }

  lemma BecomesLater(ms: seq<Msg>, t: Task, t': Task)
    requires ms != [] && !AssignsBy(ms[0], t) && Becomes(ms[1..], t, t')
    ensures Becomes(ms, t, t')
  {
    var rest := ms[1..];
    assert forall k :: 0 <= k < |rest| ==> rest[k] == ms[k + 1];
    forall i: nat | FirstAssign(ms, t, i)
      ensures i > 0 && FirstAssign(rest, t, i - 1) && rest[i - 1] == ms[i] && rest[i..] == ms[i + 1..]
    {
    }
  }

  /** So it is, over any run that does not create over the id. */
  lemma {:induction false} OpenLife(r: Registry, ms: seq<Msg>, id: uint64)
    requires Keyed(r.tasks) && id in r.tasks && !InWindow(r.next, Creates(ms), id) && r.tasks[id].status == 1
    ensures id in Run(r, ms).tasks && Becomes(ms, r.tasks[id], Run(r, ms).tasks[id])
    decreases |ms|
  {
    if ms != [] {
      var m, rest, r', t := ms[0], ms[1..], Step(r, ms[0]).0, r.tasks[id];
      WindowFrame(r, m, Creates(rest), id);
      StepFrame(r, m, id);
      RunUnfold(r, ms);
      hide Step, Run, InWindow, Becomes, Creates;
      if AssignsBy(m, t) {
        AssignedLife(r', rest, id);
        BecomesAssigned(ms, t);
      } else {
        OpenLife(r', rest, id);
        BecomesLater(ms, t, Run(r, ms).tasks[id]);
      }
    }
  }

  // ---------- From the default genesis ----------

  /** Message p is the create that gets the id: the id-th one of the run. */
  predicate Born(ms: seq<Msg>, p: nat, id: uint64) {
    p < |ms| && ms[p].Create? && Creates(ms[..p]) + 1 == id
  }

  lemma BornIff(ms: seq<Msg>, p: nat, id: uint64)
    requires Creates(ms) < TWO_64 - 1 && p < |ms| && ms[p].Create?
    ensures Born(ms, p, id) <==> Run(DEFAULT_REGISTRY, ms[..p]).next == id
    ensures Creates(ms[..p]) < TWO_64 - 1
  {
    assert ms == ms[..p] + ms[p..];
    CreatesConcat(ms[..p], ms[p..]);
    RunNext(DEFAULT_REGISTRY, ms[..p]);
  }

  /** The record as created. */
  function Newborn(id: uint64, m: Msg): Task
    requires m.Create?
  {
    Task(id, m.c.title, m.c.description, m.c.creator, [], 1)
  }

  /** What the messages say has become of the task created at p. */
  ghost predicate Tells(ms: seq<Msg>, p: nat, id: uint64, t: Task)
    requires Born(ms, p, id)
  {
    Becomes(ms[p + 1..], Newborn(id, ms[p]), t)
  }

  lemma AfterBirthLife(ms: seq<Msg>, p: nat, id: uint64)
    requires Creates(ms) < TWO_64 - 1 && Born(ms, p, id)
    ensures id in Run(DEFAULT_REGISTRY, ms).tasks && Tells(ms, p, id, Run(DEFAULT_REGISTRY, ms).tasks[id])
  {
    BornIff(ms, p, id);
    hide Run, Creates, InWindow;
    AfterBirth(ms, id, p);
    var r, later := Run(DEFAULT_REGISTRY, ms[..p + 1]), ms[p + 1..];
    DefaultWindow(ms[..p + 1], later, id);
    OpenLife(r, later, id);
  }

  /** From the default genesis, while fewer than 2^64 - 1 tasks are created: a task is
      stored exactly when its create is in the run, and its record is the one the later
      messages tell, the creator's first assign and the assignee's completion after it. */
  lemma DefaultLife(ms: seq<Msg>, id: uint64)
    requires Creates(ms) < TWO_64 - 1
    ensures var tasks := Run(DEFAULT_REGISTRY, ms).tasks;
      && (id in tasks <==> exists p: nat :: Born(ms, p, id))
      && forall p: nat :: Born(ms, p, id) ==> id in tasks && Tells(ms, p, id, tasks[id])
  {
    forall p: nat | Born(ms, p, id)
      ensures id in Run(DEFAULT_REGISTRY, ms).tasks && Tells(ms, p, id, Run(DEFAULT_REGISTRY, ms).tasks[id])
    {
      AfterBirthLife(ms, p, id);
    }
    if id in Run(DEFAULT_REGISTRY, ms).tasks {
      var p := Birth(ms, id);
      BornIff(ms, p, id);
    }
  }

  /** Created at p, first assigned by its creator at i, completed by that assignee at j. */
  ghost predicate Finished(ms: seq<Msg>, id: uint64, p: nat, i: nat, j: nat) {
    && Born(ms, p, id) && p < i < j < |ms|
    && FirstAssign(ms[p + 1..], Newborn(id, ms[p]), i - p - 1)
    && ms[j] == Completion(ms[i].a.assignee, id)
  }

  lemma {:induction false} FirstAssignExists(ms: seq<Msg>, t: Task)
    requires !NeverAssigned(ms, t)
    ensures exists i: nat :: FirstAssign(ms, t, i)
  {
    if AssignsBy(ms[0], t) {
      assert FirstAssign(ms, t, 0);
    } else {
      assert forall k :: 0 <= k < |ms| - 1 ==> ms[1..][k] == ms[k + 1];
      var k: nat :| k < |ms| && AssignsBy(ms[k], t);
      assert AssignsBy(ms[1..][k - 1], t);
      FirstAssignExists(ms[1..], t);
      var i: nat :| FirstAssign(ms[1..], t, i);
      assert FirstAssign(ms, t, i + 1);
    }
  }

  /** A task is COMPLETED exactly when its create, then the creator's first assign, then a
      completion by that assignee are in the run in this order. */
  lemma CompletedIff(ms: seq<Msg>, id: uint64)
    requires Creates(ms) < TWO_64 - 1
    ensures (id in Run(DEFAULT_REGISTRY, ms).tasks && Run(DEFAULT_REGISTRY, ms).tasks[id].status == 3)
      <==> exists p: nat, i: nat, j: nat :: Finished(ms, id, p, i, j)
  {
    hide Run, Creates, FirstAssign;
    DefaultLife(ms, id);
    var tasks := Run(DEFAULT_REGISTRY, ms).tasks;
    if id in tasks && tasks[id].status == 3 {
      var p: nat :| Born(ms, p, id);
      FinishedIfDone(ms, id, p, tasks[id]);
    }
    if p: nat, i: nat, j: nat :| Finished(ms, id, p, i, j) {
      var later := ms[p + 1..];
      assert later[i - p..][j - i - 1] == ms[j];
    }
  }

  lemma FinishedIfDone(ms: seq<Msg>, id: uint64, p: nat, t: Task)
    requires Born(ms, p, id) && Tells(ms, p, id, t) && t.status == 3
    ensures exists i: nat, j: nat :: Finished(ms, id, p, i, j)
  {
    hide Creates;
    var t0, later := Newborn(id, ms[p]), ms[p + 1..];
    FirstAssignExists(later, t0);
    var i: nat :| FirstAssign(later, t0, i);
    hide FirstAssign;
    var j: nat :| j < |later[i + 1..]| && later[i + 1..][j] == Completion(later[i].a.assignee, id);
    assert ms[p + 1 + i] == later[i] && ms[p + 1 + i + 1 + j] == later[i + 1..][j];
    assert Finished(ms, id, p, p + 1 + i, p + 1 + i + 1 + j);
  }
}
