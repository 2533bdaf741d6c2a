/** The application as seen through the consensus engine: staging, the two database
    transactions of a commit, crashes anywhere, and replay from the reported height. */
module KVProtocol {
  import opened Bytes
  import opened KVTx
  import opened KVStore

  type Block = seq<seq<byte>>
  type Digest = seq<byte> -> seq<byte>

  /** The fields lost in a crash. */
  datatype Mem = Mem(height: int64, appHash: seq<byte>, staged: seq<Pair>)

  datatype App = App(db: DB, mem: Mem)

  const EMPTY_APP := App(map[], Mem(0, [], []))

  function Finalize(mem: Mem, height: int64, txs: Block): Mem {
    Mem(height, mem.appHash, Stage(txs))
  }

  /** First database transaction of a commit. */
  function Flush(app: App): App {
    app.(db := ApplyPairs(app.db, app.mem.staged))
  }

  /** The hash and the second database transaction. */
  ghost function Seal(H: Digest, app: App): App {
    var hash := H(Preimage(app.db));
    App(SaveMetaIn(app.db, app.mem.height, hash), Mem(app.mem.height, hash, []))
  }

  ghost function Deliver(H: Digest, app: App, height: int64, txs: Block): App {
    Seal(H, Flush(app.(mem := Finalize(app.mem, height, txs))))
  }

  /** Heights fit an int64; block i of the chain has height i + 1. */
  type Chain = c: seq<Block> | |c| < 0x8000_0000_0000_0000

  /** The crash-free application after the first k blocks. */
  ghost function Clean(H: Digest, chain: Chain, k: nat): App
    requires k <= |chain|
  {
    if k == 0 then EMPTY_APP else Deliver(H, Clean(H, chain, k - 1), k, chain[k - 1])
  }

  /** Deliver every block from index k on. */
  ghost function Resume(H: Digest, chain: Chain, app: App, k: nat): App
    requires k <= |chain|
    decreases |chain| - k
  {
    if k == |chain| then app else Resume(H, chain, Deliver(H, app, k + 1, chain[k]), k + 1)
  }

  // ---------- Crash-free runs ----------

  /** The transactions of the first k blocks, in order. */
  function Flatten(chain: Chain, k: nat): Block
    requires k <= |chain|
  {
    if k == 0 then [] else Flatten(chain, k - 1) + chain[k - 1]
  }

  lemma CleanShape(H: Digest, chain: Chain, k: nat)
    requires k <= |chain|
    ensures Clean(H, chain, k).mem.height == k && Clean(H, chain, k).mem.staged == []
    ensures k == 0 ==> Clean(H, chain, k) == EMPTY_APP
    ensures k > 0 ==> Clean(H, chain, k).mem.appHash == H(Preimage(Clean(H, chain, k).db))
    ensures k > 0 ==> META_HEIGHT in Clean(H, chain, k).db && META_HASH in Clean(H, chain, k).db
    ensures LoadMetaFrom(Clean(H, chain, k).db) == Meta(k, Clean(H, chain, k).mem.appHash)
  {
    if k > 0 {
      var app := Flush(Clean(H, chain, k - 1).(mem := Finalize(Clean(H, chain, k - 1).mem, k, chain[k - 1])));
      hide Preimage, UserMap, LoadMetaFrom, META_HEIGHT, META_HASH;
      LoadSaved(app.db, k, H(Preimage(app.db)));
      SaveMetaKeepsUser(app.db, k, H(Preimage(app.db)));
    }
  }

  lemma NextUserMap(H: Digest, chain: Chain, k: nat)
    requires k < |chain|
    ensures UserMap(Clean(H, chain, k + 1).db) == UserMap(ApplyPairs(Clean(H, chain, k).db, Stage(chain[k])))
  {
    hide UserMap, Preimage, ApplyPairs, Stage;
    var flushed := ApplyPairs(Clean(H, chain, k).db, Stage(chain[k]));
    SaveMetaKeepsUser(flushed, k + 1, H(Preimage(flushed)));
  }

  /** The user map after k blocks is the in-order fold of their valid writes. */
  lemma {:induction false} CleanUserMap(H: Digest, chain: Chain, k: nat)
    requires k <= |chain|
    ensures UserMap(Clean(H, chain, k).db) == UserMap(ApplyPairs(map[], Stage(Flatten(chain, k))))
  {
    hide UserMap, Clean, Stage, ApplyPairs, Preimage, LoadMetaFrom, Flatten;
    FlattenUnfold(chain, k);
    if k == 0 {
      CleanShape(H, chain, 0);
      StageNothing();
    } else {
      var earlier, block := Flatten(chain, k - 1), chain[k - 1];
      CleanUserMap(H, chain, k - 1);
      NextUserMap(H, chain, k - 1);
      StageConcat(earlier, block);
      ApplyPairsConcat(map[], Stage(earlier), Stage(block));
      BatchOnUser(Clean(H, chain, k - 1).db, ApplyPairs(map[], Stage(earlier)), Stage(block));
    }
  }

  lemma FlattenUnfold(chain: Chain, k: nat)
    requires k <= |chain|
    ensures k == 0 ==> Flatten(chain, k) == []
    ensures k > 0 ==> Flatten(chain, k) == Flatten(chain, k - 1) + chain[k - 1]
  {
  }

  lemma StageNothing()
    ensures ApplyPairs(map[], Stage([])) == map[]
  {
  }

  lemma PreimageOfUserMap(db1: DB, db2: DB)
    requires UserMap(db1) == UserMap(db2)
    ensures Preimage(db1) == Preimage(db2)
  {
  }

  /** Splitting the same transactions into blocks differently changes neither the user
      map, nor the hash pre-image, nor (once a block was committed) the app hash. */
  lemma PartitionIndependence(H: Digest, c1: Chain, c2: Chain)
    requires Flatten(c1, |c1|) == Flatten(c2, |c2|)
    ensures var a1, a2 := Clean(H, c1, |c1|), Clean(H, c2, |c2|);
      && UserMap(a1.db) == UserMap(a2.db)
      && Preimage(a1.db) == Preimage(a2.db)
      && (c1 != [] && c2 != [] ==> a1.mem.appHash == a2.mem.appHash)
  {
    hide UserMap, Preimage, LoadMetaFrom, Clean, Flatten, Stage, ApplyPairs;
    CleanUserMap(H, c1, |c1|);
    CleanUserMap(H, c2, |c2|);
    CleanShape(H, c1, |c1|);
    CleanShape(H, c2, |c2|);
    PreimageOfUserMap(Clean(H, c1, |c1|).db, Clean(H, c2, |c2|).db);
  }

  // ---------- Crashes and replay ----------

  datatype Phase = Idle | Finalized | Flushed

  /** The application, what it is doing, and the index of the block the engine delivers next. */
  datatype Node = Node(app: App, phase: Phase, next: nat)

  ghost predicate Init(s: Node) {
    s == Node(EMPTY_APP, Idle, 0)
  }

  /** One step: a stage of the block in hand, or a crash followed by a restart, after
      which the engine redelivers every block above the height that was loaded. */
  ghost predicate Next(H: Digest, chain: Chain, s: Node, s': Node) {
    || (s.phase.Idle? && s.next < |chain|
        && s' == Node(s.app.(mem := Finalize(s.app.mem, s.next + 1, chain[s.next])), Finalized, s.next))
    || (s.phase.Finalized? && s' == s.(app := Flush(s.app), phase := Flushed))
    || (s.phase.Flushed? && s' == Node(Seal(H, s.app), Idle, s.next + 1))
    || Restart(s, s')
  }

  ghost predicate Restart(s: Node, s': Node) {
    var l := LoadMetaFrom(s.app.db);
    l.Meta? && l.height >= 0 && s' == Node(App(s.app.db, Mem(l.height, l.hash, [])), Idle, l.height)
  }

  ghost predicate IsTrace(H: Digest, chain: Chain, tr: seq<Node>) {
    tr != [] && Init(tr[0]) && forall i :: 0 <= i < |tr| - 1 ==> Next(H, chain, tr[i], tr[i + 1])
  }

  /** A batch that, flushed on top of height k, leaves that height readable: it does not
      write the height key, or its last write there repeats k (and the hash key exists). */
  predicate HeightSurvives(ps: seq<Pair>, k: nat) {
    match LastWrite(ps, META_HEIGHT)
    case None => true
    case Some(v) => |v| >= 8 && HeightOf(v) == k && (k > 0 || LastWrite(ps, META_HASH).Some?)
  }

  /** Checkable from the blocks alone. */
  predicate HeightSafe(chain: Chain) {
    forall k :: 0 <= k < |chain| ==> HeightSurvives(Stage(chain[k]), k)
  }

  /** In particular when no valid transaction names the height key. */
  lemma UntouchedIsSafe(chain: Chain)
    requires forall k, p :: 0 <= k < |chain| && p in Stage(chain[k]) ==> p.0 != META_HEIGHT
    ensures HeightSafe(chain)
  {
    hide META_HEIGHT, META_HASH, Stage;
    forall k | 0 <= k < |chain| ensures HeightSurvives(Stage(chain[k]), k) {
      UnwrittenKey(Stage(chain[k]), META_HEIGHT);
    }
  }

  /** The database is the crash-free one, possibly with the next block's batch already in it. */
  ghost predicate DbAt(H: Digest, chain: Chain, db: DB, k: nat) {
    && k <= |chain|
    && (|| db == Clean(H, chain, k).db
        || (k < |chain| && db == ApplyPairs(Clean(H, chain, k).db, Stage(chain[k]))))
  }

  ghost predicate Inv(H: Digest, chain: Chain, s: Node) {
    && DbAt(H, chain, s.app.db, s.next)
    && match s.phase
       case Idle =>
         && s.app.mem.height == s.next && s.app.mem.staged == []
         && (s.app.db == Clean(H, chain, s.next).db ==> s.app == Clean(H, chain, s.next))
       case Finalized =>
         s.next < |chain| && s.app.mem.height == s.next + 1 && s.app.mem.staged == Stage(chain[s.next])
       case Flushed =>
         && s.next < |chain| && s.app.mem.height == s.next + 1 && s.app.mem.staged == Stage(chain[s.next])
         && s.app.db == ApplyPairs(Clean(H, chain, s.next).db, Stage(chain[s.next]))
  }

  lemma HeightAfterBatch(db: DB, ps: seq<Pair>, k: int64, hash: seq<byte>)
    requires k >= 0 && LoadMetaFrom(db) == Meta(k, hash)
    requires if k == 0 then db == map[] else META_HEIGHT in db && META_HASH in db
    ensures LoadMetaFrom(ApplyPairs(db, ps)).Meta? && LoadMetaFrom(ApplyPairs(db, ps)).height == k
      <==> HeightSurvives(ps, k)
  {
    ApplyPairsAt(db, ps, META_HEIGHT);
    ApplyPairsAt(db, ps, META_HASH);
    hide META_HEIGHT, META_HASH, HeightOf, ApplyPairs, LastWrite;
  }

  /** Whatever point the crash hit, the restart loads the height of the last sealed block. */
  lemma RestartHeight(H: Digest, chain: Chain, db: DB, k: nat)
    requires HeightSafe(chain) && DbAt(H, chain, db, k)
    ensures LoadMetaFrom(db).Meta? && LoadMetaFrom(db).height == k
    ensures db == Clean(H, chain, k).db ==> LoadMetaFrom(db).hash == Clean(H, chain, k).mem.appHash
  {
    hide LoadMetaFrom, Clean, ApplyPairs, Stage, HeightSurvives, Preimage;
    CleanShape(H, chain, k);
    var clean := Clean(H, chain, k);
    if db != clean.db { HeightAfterBatch(clean.db, Stage(chain[k]), k, clean.mem.appHash); }
  }

  lemma FlushLands(H: Digest, chain: Chain, db: DB, k: nat)
    requires DbAt(H, chain, db, k) && k < |chain|
    ensures ApplyPairs(db, Stage(chain[k])) == ApplyPairs(Clean(H, chain, k).db, Stage(chain[k]))
  {
    BatchIdempotent(Clean(H, chain, k).db, Stage(chain[k]));
  }

  lemma SealLands(H: Digest, chain: Chain, app: App, k: nat)
    requires k < |chain| && app.db == ApplyPairs(Clean(H, chain, k).db, Stage(chain[k])) && app.mem.height == k + 1
    ensures Seal(H, app) == Clean(H, chain, k + 1)
  {
  }

  lemma RestartInv(H: Digest, chain: Chain, s: Node, s': Node)
    requires HeightSafe(chain) && DbAt(H, chain, s.app.db, s.next) && Restart(s, s')
    ensures Inv(H, chain, s')
  {
    hide LoadMetaFrom, Clean, Stage, ApplyPairs, HeightSafe;
    RestartHeight(H, chain, s.app.db, s.next);
    CleanShape(H, chain, s.next);
  }

  lemma SealInv(H: Digest, chain: Chain, s: Node, s': Node)
    requires Inv(H, chain, s) && s.phase.Flushed? && s' == Node(Seal(H, s.app), Idle, s.next + 1)
    ensures Inv(H, chain, s')
  {
    hide LoadMetaFrom, Stage, ApplyPairs, Clean, Seal;
    SealLands(H, chain, s.app, s.next);
    CleanShape(H, chain, s.next + 1);
  }

  lemma InvStep(H: Digest, chain: Chain, s: Node, s': Node)
    requires HeightSafe(chain) && Inv(H, chain, s) && Next(H, chain, s, s')
    ensures Inv(H, chain, s')
  {
    hide Stage, ApplyPairs, Clean, HeightSafe, Seal, Restart;
    if Restart(s, s') {
      RestartInv(H, chain, s, s');
    } else if s.phase.Flushed? {
      SealInv(H, chain, s, s');
    } else if s.phase.Finalized? {
      FlushLands(H, chain, s.app.db, s.next);
    }
  }

  lemma {:induction false} TraceInv(H: Digest, chain: Chain, tr: seq<Node>, i: nat)
    requires HeightSafe(chain) && IsTrace(H, chain, tr) && i < |tr|
    ensures Inv(H, chain, tr[i])
  {
    if i == 0 {
      CleanShape(H, chain, 0);
    } else {
      hide Inv, Next, HeightSafe;
      TraceInv(H, chain, tr, i - 1);
      InvStep(H, chain, tr[i - 1], tr[i]);
    }
  }

  lemma {:induction false} ResumeClean(H: Digest, chain: Chain, k: nat)
    requires k <= |chain|
    ensures Resume(H, chain, Clean(H, chain, k), k) == Clean(H, chain, |chain|)
    decreases |chain| - k
  {
    hide Deliver;
    if k < |chain| {
      ResumeClean(H, chain, k + 1);
      assert Clean(H, chain, k + 1) == Deliver(H, Clean(H, chain, k), k + 1, chain[k]);
    }
  }

  lemma RedeliveryLands(H: Digest, chain: Chain, app: App, k: nat)
    requires DbAt(H, chain, app.db, k) && k < |chain|
    ensures Deliver(H, app, k + 1, chain[k]) == Clean(H, chain, k + 1)
  {
    hide Clean, ApplyPairs, Stage, Seal, DbAt;
    FlushLands(H, chain, app.db, k);
    SealLands(H, chain, Flush(app.(mem := Finalize(app.mem, k + 1, chain[k]))), k);
  }

  lemma ResumeLands(H: Digest, chain: Chain, app: App, k: nat)
    requires DbAt(H, chain, app.db, k)
    requires k == |chain| ==> app == Clean(H, chain, k)
    ensures Resume(H, chain, app, k) == Clean(H, chain, |chain|)
  {
    assert k <= |chain|;
    hide Clean, Deliver, DbAt;
    if k < |chain| {
      RedeliveryLands(H, chain, app, k);
      ResumeClean(H, chain, k + 1);
    }
  }

  /** Crash-replay equivalence. In every reachable state, with any number of crashes
      anywhere: restarting succeeds and reports the last sealed height; redelivering the
      blocks above it ends exactly in the crash-free application; and when all blocks are
      delivered the application already is that one. */
  lemma CrashReplay(H: Digest, chain: Chain, tr: seq<Node>, i: nat)
    requires HeightSafe(chain) && IsTrace(H, chain, tr) && i < |tr|
    ensures var s := tr[i]; var l := LoadMetaFrom(s.app.db);
      && s.next <= |chain|
      && l.Meta? && l.height == s.next
      && Resume(H, chain, App(s.app.db, Mem(l.height, l.hash, [])), s.next) == Clean(H, chain, |chain|)
      && (s.phase.Idle? && s.next == |chain| ==> s.app == Clean(H, chain, |chain|))
  {
    hide LoadMetaFrom, Clean, Resume, Stage, ApplyPairs, IsTrace, HeightSafe;
    TraceInv(H, chain, tr, i);
    var s := tr[i];
    RestartHeight(H, chain, s.app.db, s.next);
    CleanShape(H, chain, s.next);
    var l := LoadMetaFrom(s.app.db);
    ResumeLands(H, chain, App(s.app.db, Mem(l.height, l.hash, [])), s.next);
  }

  /** Between blocks a client sees the user map of the reported height or, after a crash
      inside a commit, already that of the next one. */
  lemma VisibleState(H: Digest, chain: Chain, tr: seq<Node>, i: nat)
    requires HeightSafe(chain) && IsTrace(H, chain, tr) && i < |tr| && tr[i].phase.Idle?
    ensures var s := tr[i];
      && s.app.mem.height == s.next <= |chain|
      && (|| UserMap(s.app.db) == UserMap(Clean(H, chain, s.next).db)
          || (s.next < |chain| && UserMap(s.app.db) == UserMap(Clean(H, chain, s.next + 1).db)))
  {
    hide UserMap, Clean, ApplyPairs, Stage, IsTrace, HeightSafe;
    TraceInv(H, chain, tr, i);
    if tr[i].next < |chain| { NextUserMap(H, chain, tr[i].next); }
  }

  // ---------- The hypothesis is exact ----------

  /** The crash-free trace that delivers k blocks. */
  lemma {:induction false} CleanTrace(H: Digest, chain: Chain, k: nat) returns (tr: seq<Node>)
    requires k <= |chain|
    ensures IsTrace(H, chain, tr) && tr[|tr| - 1] == Node(Clean(H, chain, k), Idle, k)
  {
    hide Clean, Stage, ApplyPairs, Seal, Next;
    if k == 0 {
      CleanShape(H, chain, 0);
      tr := [Node(EMPTY_APP, Idle, 0)];
    } else {
      var before := CleanTrace(H, chain, k - 1);
      var flushed := ToFlushed(H, chain, before, k - 1);
      SealStep(H, chain, flushed[|flushed| - 1], k - 1);
      ExtendTrace(H, chain, flushed, Node(Clean(H, chain, k), Idle, k));
      tr := flushed + [Node(Clean(H, chain, k), Idle, k)];
    }
  }

  lemma ExtendTrace(H: Digest, chain: Chain, tr: seq<Node>, s: Node)
    requires IsTrace(H, chain, tr) && Next(H, chain, tr[|tr| - 1], s)
    ensures IsTrace(H, chain, tr + [s]) && (tr + [s])[|tr|] == s
  {
    hide Next;
  }

  lemma SealStep(H: Digest, chain: Chain, s: Node, k: nat)
    requires k < |chain| && s.phase == Flushed && s.next == k && s.app.mem.height == k + 1
    requires s.app.db == ApplyPairs(Clean(H, chain, k).db, Stage(chain[k]))
    ensures Next(H, chain, s, Node(Clean(H, chain, k + 1), Idle, k + 1))
  {
    hide Clean, Stage, ApplyPairs, Seal;
    SealLands(H, chain, s.app, k);
  }

  /** The block in hand, staged and flushed. */
  ghost function Pending(chain: Chain, s: Node): Node
    requires s.next < |chain|
  {
    Node(Flush(s.app.(mem := Finalize(s.app.mem, s.next + 1, chain[s.next]))), Flushed, s.next)
  }

  /** From an idle state on, the next block can be staged and flushed. */
  lemma FlushTrace(H: Digest, chain: Chain, before: seq<Node>) returns (tr: seq<Node>)
    requires IsTrace(H, chain, before) && before[|before| - 1].phase.Idle? && before[|before| - 1].next < |chain|
    ensures IsTrace(H, chain, tr) && tr[|tr| - 1] == Pending(chain, before[|before| - 1])
  {
    hide Clean, Stage, ApplyPairs, Seal, Restart;
    var s := before[|before| - 1];
    var finalized := Node(s.app.(mem := Finalize(s.app.mem, s.next + 1, chain[s.next])), Finalized, s.next);
    var flushed := Pending(chain, s);
    assert Next(H, chain, s, finalized) && Next(H, chain, finalized, flushed);
    hide Next;
    ExtendTrace(H, chain, before, finalized);
    ExtendTrace(H, chain, before + [finalized], flushed);
    tr := before + [finalized] + [flushed];
  }

  lemma ToFlushed(H: Digest, chain: Chain, before: seq<Node>, k: nat) returns (tr: seq<Node>)
    requires k < |chain| && IsTrace(H, chain, before) && before[|before| - 1] == Node(Clean(H, chain, k), Idle, k)
    ensures IsTrace(H, chain, tr) && tr != []
    ensures var s := tr[|tr| - 1];
      && s.phase == Flushed && s.next == k && s.app.mem.height == k + 1
      && s.app.db == ApplyPairs(Clean(H, chain, k).db, Stage(chain[k]))
  {
    hide Clean, Stage, ApplyPairs, Next;
    tr := FlushTrace(H, chain, before);
  }

  lemma DeliverOne(H: Digest, chain: Chain, before: seq<Node>) returns (tr: seq<Node>)
    requires IsTrace(H, chain, before) && before[|before| - 1].phase.Idle? && before[|before| - 1].next < |chain|
    ensures var s := before[|before| - 1];
      && IsTrace(H, chain, tr) && tr != []
      && tr[|tr| - 1] == Node(Deliver(H, s.app, s.next + 1, chain[s.next]), Idle, s.next + 1)
  {
    hide Deliver, Pending, Next;
    var s := before[|before| - 1];
    var delivered := Node(Deliver(H, s.app, s.next + 1, chain[s.next]), Idle, s.next + 1);
    tr := FlushTrace(H, chain, before);
    DeliverStep(H, chain, s);
    ExtendTrace(H, chain, tr, delivered);
    tr := tr + [delivered];
  }

  /** From an idle state on, all remaining blocks can be delivered without a crash. */
  lemma {:induction false} DeliverTrace(H: Digest, chain: Chain, before: seq<Node>) returns (tr: seq<Node>)
    requires IsTrace(H, chain, before) && before[|before| - 1].phase.Idle? && before[|before| - 1].next <= |chain|
    ensures IsTrace(H, chain, tr) && tr != []
    ensures var s := before[|before| - 1]; tr[|tr| - 1] == Node(Resume(H, chain, s.app, s.next), Idle, |chain|)
    decreases |chain| - before[|before| - 1].next
  {
    var s := before[|before| - 1];
    ResumeUnfold(H, chain, s.app, s.next);
    hide Deliver, Resume;
    if s.next == |chain| { return before; }
    tr := DeliverOne(H, chain, before);
    hide IsTrace;
    tr := DeliverTrace(H, chain, tr);
  }

  lemma ResumeUnfold(H: Digest, chain: Chain, app: App, k: nat)
    requires k <= |chain|
    ensures k == |chain| ==> Resume(H, chain, app, k) == app
    ensures k < |chain| ==> Resume(H, chain, app, k) == Resume(H, chain, Deliver(H, app, k + 1, chain[k]), k + 1)
  {
    hide Deliver;
  }

  lemma DeliverStep(H: Digest, chain: Chain, s: Node)
    requires s.next < |chain|
    ensures Next(H, chain, Pending(chain, s), Node(Deliver(H, s.app, s.next + 1, chain[s.next]), Idle, s.next + 1))
  {
    hide Stage, ApplyPairs, Seal, Restart;
  }

  /** From a state whose metadata loads, a crash and a restart. */
  lemma RestartTrace(H: Digest, chain: Chain, before: seq<Node>) returns (tr: seq<Node>)
    requires IsTrace(H, chain, before)
    requires LoadMetaFrom(before[|before| - 1].app.db).Meta? && LoadMetaFrom(before[|before| - 1].app.db).height >= 0
    ensures var db := before[|before| - 1].app.db; var l := LoadMetaFrom(db);
      IsTrace(H, chain, tr) && tr[|tr| - 1] == Node(App(db, Mem(l.height, l.hash, [])), Idle, l.height)
  {
    hide LoadMetaFrom;
    var db := before[|before| - 1].app.db;
    var l := LoadMetaFrom(db);
    var restarted := Node(App(db, Mem(l.height, l.hash, [])), Idle, l.height);
    ExtendTrace(H, chain, before, restarted);
    tr := before + [restarted];
  }

  /** The trace that delivers k blocks and crashes after the next batch was flushed. */
  lemma WindowRestart(H: Digest, chain: Chain, k: nat) returns (tr: seq<Node>)
    requires HeightSafe(chain) && k < |chain|
    ensures IsTrace(H, chain, tr) && tr != []
    ensures var s := tr[|tr| - 1];
      && s.phase.Idle? && s.next == k && s.app.mem.height == k
      && s.app.db == ApplyPairs(Clean(H, chain, k).db, Stage(chain[k]))
  {
    hide LoadMetaFrom, Clean, Stage, ApplyPairs, HeightSafe;
    var before := CleanTrace(H, chain, k);
    tr := ToFlushed(H, chain, before, k);
    var db := tr[|tr| - 1].app.db;
    RestartHeight(H, chain, db, k);
    tr := RestartTrace(H, chain, tr);
  }

  ghost predicate ShowsItsHeight(H: Digest, chain: Chain, s: Node) {
    s.next <= |chain| && UserMap(s.app.db) == UserMap(Clean(H, chain, s.next).db)
  }

  /** Block k's last write to every user key repeats what the earlier blocks left there. */
  ghost predicate RepeatsEarlier(chain: Chain, k: nat)
    requires k < |chain|
  {
    forall p :: p in Stage(chain[k]) && !IsMeta(p.0) ==>
      LastWrite(Stage(chain[k]), p.0) == LastWrite(Stage(Flatten(chain, k)), p.0)
  }

  lemma CleanAt(H: Digest, chain: Chain, k: nat, key: seq<byte>)
    requires k <= |chain| && !IsMeta(key)
    ensures LastWrite(Stage(Flatten(chain, k)), key)
      == if key in Clean(H, chain, k).db then Some(Clean(H, chain, k).db[key]) else None
  {
    hide Stage, Flatten, Clean, ApplyPairs, LastWrite, IsMeta;
    CleanUserMap(H, chain, k);
    var flat := ApplyPairs(map[], Stage(Flatten(chain, k)));
    ApplyPairsAt(map[], Stage(Flatten(chain, k)), key);
    assert key in UserMap(flat) <==> key in flat;
    assert key in UserMap(Clean(H, chain, k).db) <==> key in Clean(H, chain, k).db;
  }

  /** After k blocks every key but the two metadata keys is in the database exactly when
      one of the blocks' valid transactions wrote it, with the last value written. */
  lemma ChainContents(H: Digest, chain: Chain, k: nat, key: seq<byte>)
    requires k <= |chain| && key != Ascii("__meta_height") && key != Ascii("__meta_apphash")
    ensures (if key in Clean(H, chain, k).db then Some(Clean(H, chain, k).db[key]) else None)
      == LastWrite(Stage(Flatten(chain, k)), key)
  {
    CleanAt(H, chain, k, key);
  }

  /** The keys written, but for the two metadata keys. */
  function WrittenKeys(ps: seq<Pair>): set<seq<byte>> {
    set p | p in ps && p.0 != Ascii("__meta_height") && p.0 != Ascii("__meta_apphash") :: p.0
  }

  /** Each key followed by the last value written to it. */
  function Digested(ps: seq<Pair>, ks: seq<seq<byte>>): seq<byte> {
    if ks == [] then []
    else
      var k := ks[|ks| - 1];
      Digested(ps, ks[..|ks| - 1]) + k + match LastWrite(ps, k) case None => [] case Some(v) => v
  }

  lemma {:induction false} FeedIsDigested(db: DB, ps: seq<Pair>, ks: seq<seq<byte>>)
    requires forall k :: k in ks ==> k in db && LastWrite(ps, k) == Some(db[k])
    ensures Feed(db, ks) == Digested(ps, ks)
  {
    hide LastWrite;
    if ks != [] {
      assert ks[|ks| - 1] in ks;
      FeedIsDigested(db, ps, ks[..|ks| - 1]);
    }
  }

  /** The app hash after k blocks digests exactly the keys written so far, in increasing
      order, each followed by its last value. */
  lemma ChainHash(H: Digest, chain: Chain, k: nat)
    requires 0 < k <= |chain|
    ensures var ps := Stage(Flatten(chain, k));
      Clean(H, chain, k).mem.appHash == H(Digested(ps, SortedKeys(WrittenKeys(ps))))
  {
    var ps, db := Stage(Flatten(chain, k)), Clean(H, chain, k).db;
    hide Clean, Stage, Flatten, Feed, Digested, LastWrite, SortedKeys, UserMap, LoadMetaFrom;
    CleanShape(H, chain, k);
    UserMapIs(db);
    forall key ensures key in UserMap(db) <==> key in WrittenKeys(ps)
      ensures key in UserMap(db) ==> LastWrite(ps, key) == Some(UserMap(db)[key])
    {
      if key != Ascii("__meta_height") && key != Ascii("__meta_apphash") {
        ChainContents(H, chain, k, key);
        if p :| p in ps && p.0 == key { WrittenKey(ps, p); } else { UnwrittenKey(ps, key); }
      }
    }
    assert UserMap(db).Keys == WrittenKeys(ps);
    FeedIsDigested(UserMap(db), ps, SortedKeys(WrittenKeys(ps)));
  }

  lemma WindowShowsIff(H: Digest, chain: Chain, k: nat)
    requires k < |chain|
    ensures UserMap(ApplyPairs(Clean(H, chain, k).db, Stage(chain[k]))) == UserMap(Clean(H, chain, k).db)
      <==> RepeatsEarlier(chain, k)
  {
    hide Stage, Flatten, Clean, ApplyPairs, LastWrite, IsMeta, UserMap;
    UserUnchangedIff(Clean(H, chain, k).db, Stage(chain[k]));
    forall p | p in Stage(chain[k]) && !IsMeta(p.0)
      ensures LastWrite(Stage(chain[k]), p.0) == LastWrite(Stage(Flatten(chain, k)), p.0) <==>
        p.0 in Clean(H, chain, k).db && LastWrite(Stage(chain[k]), p.0) == Some(Clean(H, chain, k).db[p.0])
    {
      CleanAt(H, chain, k, p.0);
      WrittenKey(Stage(chain[k]), p);
    }
  }

  /** Exactly then: in every reachable state between blocks a client sees the user map of
      the reported height if and only if no block changes, net, a user key. */
  lemma VisibleStateIff(H: Digest, chain: Chain)
    requires HeightSafe(chain)
    ensures (forall tr: seq<Node>, i: nat ::
        IsTrace(H, chain, tr) && i < |tr| && tr[i].phase.Idle? ==> ShowsItsHeight(H, chain, tr[i]))
      <==> (forall k :: 0 <= k < |chain| ==> RepeatsEarlier(chain, k))
  {
    hide Clean, Stage, ApplyPairs, IsTrace, HeightSafe, RepeatsEarlier, UserMap;
    if forall k :: 0 <= k < |chain| ==> RepeatsEarlier(chain, k) {
      forall tr: seq<Node>, i: nat | IsTrace(H, chain, tr) && i < |tr| && tr[i].phase.Idle?
        ensures ShowsItsHeight(H, chain, tr[i])
      {
        TraceInv(H, chain, tr, i);
        if tr[i].next < |chain| { WindowShowsIff(H, chain, tr[i].next); }
      }
    } else {
      var k :| 0 <= k < |chain| && !RepeatsEarlier(chain, k);
      var tr := WindowRestart(H, chain, k);
      WindowShowsIff(H, chain, k);
      assert !ShowsItsHeight(H, chain, tr[|tr| - 1]);
    }
  }

  /** One block that sets one key: a crash inside its commit leaves an application that
      reports height 0, where nothing was written yet, and serves the block's value. */
  lemma StaleHeightWitness(H: Digest) returns (tr: seq<Node>)
    ensures var a, one := Ascii("a"), Ascii("1"); var chain: Chain := [[PrintTx(a, one)]];
      && HeightSafe(chain) && IsTrace(H, chain, tr)
      && var s := tr[|tr| - 1];
         && s.phase.Idle? && s.app.mem.height == 0
         && UserMap(s.app.db) == map[a := one] && UserMap(Clean(H, chain, 0).db) == map[]
  {
    var a, one := Ascii("a"), Ascii("1");
    var chain: Chain := [[PrintTx(a, one)]];
    assert a[0] == 97 && EQUALS !in a && |META_HEIGHT| == 13 && |META_HASH| == 14;
    ParsePrint(a, one);
    hide META_HEIGHT, META_HASH, Clean, Stage, ApplyPairs, PrintTx, IsValidTx, ParseTx, Ascii;
    StageOne(PrintTx(a, one));
    assert Stage(chain[0]) == [(a, one)];
    UntouchedIsSafe(chain);
    tr := WindowRestart(H, chain, 0);
    CleanShape(H, chain, 0);
    ApplyOne(map[], (a, one));
    assert UserMap(map[a := one]) == map[a := one];
    assert UserMap(map[]) == map[];
  }

  ghost predicate RestartsWhereItWas(s: Node) {
    LoadMetaFrom(s.app.db).Meta? && LoadMetaFrom(s.app.db).height == s.next
  }

  /** A restart reports the last sealed height in every reachable state exactly when the
      chain is height-safe. */
  lemma RestartSafeIff(H: Digest, chain: Chain)
    ensures HeightSafe(chain) <==>
      forall tr: seq<Node>, i: nat :: IsTrace(H, chain, tr) && i < |tr| ==> RestartsWhereItWas(tr[i])
  {
    hide LoadMetaFrom, Clean, Stage, ApplyPairs, HeightSurvives, IsTrace;
    if HeightSafe(chain) {
      forall tr: seq<Node>, i: nat | IsTrace(H, chain, tr) && i < |tr| ensures RestartsWhereItWas(tr[i]) {
        TraceInv(H, chain, tr, i);
        RestartHeight(H, chain, tr[i].app.db, tr[i].next);
      }
    } else {
      var k :| 0 <= k < |chain| && !HeightSurvives(Stage(chain[k]), k);
      var tr := WindowCrash(H, chain, k);
    }
  }

  lemma WindowCrash(H: Digest, chain: Chain, k: nat) returns (tr: seq<Node>)
    requires k < |chain| && !HeightSurvives(Stage(chain[k]), k)
    ensures IsTrace(H, chain, tr) && tr != [] && !RestartsWhereItWas(tr[|tr| - 1])
  {
    var before := CleanTrace(H, chain, k);
    tr := ToFlushed(H, chain, before, k);
    hide LoadMetaFrom, Clean, Stage, ApplyPairs, HeightSurvives, Preimage;
    CleanShape(H, chain, k);
    HeightAfterBatch(Clean(H, chain, k).db, Stage(chain[k]), k, Clean(H, chain, k).mem.appHash);
  }

  // ---------- Transactions that write the metadata keys ----------

  /** The batch leaves metadata that reads back as (k, hash). */
  predicate MetaSurvives(ps: seq<Pair>, k: nat, hash: seq<byte>) {
    match LastWrite(ps, META_HEIGHT)
    case None => k == 0 || LastWrite(ps, META_HASH).None? || LastWrite(ps, META_HASH).value == hash
    case Some(v) =>
      && |v| >= 8 && HeightOf(v) == k
      && (LastWrite(ps, META_HASH) == Some(hash) || (k > 0 && LastWrite(ps, META_HASH).None?))
  }

  lemma MetaAfterBatch(db: DB, ps: seq<Pair>, k: int64, hash: seq<byte>)
    requires k >= 0 && LoadMetaFrom(db) == Meta(k, hash)
    requires if k == 0 then db == map[] else META_HEIGHT in db && META_HASH in db
    ensures LoadMetaFrom(ApplyPairs(db, ps)) == Meta(k, hash) <==> MetaSurvives(ps, k, hash)
  {
    ApplyPairsAt(db, ps, META_HEIGHT);
    ApplyPairsAt(db, ps, META_HASH);
    hide META_HEIGHT, META_HASH, HeightOf, ApplyPairs, LastWrite;
  }

  /** After a crash between the two database transactions of block k's commit, the
      restart loads the right height and hash exactly when the block's own last writes
      to the metadata keys, if any, repeat them. */
  lemma RestartExact(H: Digest, chain: Chain, k: nat)
    requires k < |chain|
    ensures var clean := Clean(H, chain, k);
      LoadMetaFrom(ApplyPairs(clean.db, Stage(chain[k]))) == Meta(k, clean.mem.appHash)
      <==> MetaSurvives(Stage(chain[k]), k, clean.mem.appHash)
  {
    hide LoadMetaFrom, Clean, ApplyPairs, Stage, MetaSurvives, Preimage;
    CleanShape(H, chain, k);
    MetaAfterBatch(Clean(H, chain, k).db, Stage(chain[k]), k, Clean(H, chain, k).mem.appHash);
  }

  ghost predicate RestartsAsSealed(H: Digest, chain: Chain, s: Node) {
    s.next <= |chain| && LoadMetaFrom(s.app.db) == Meta(s.next, Clean(H, chain, s.next).mem.appHash)
  }

  /** Over all reachable states: restarts report the last sealed height and its hash
      exactly when every block's last metadata writes, if any, repeat them. */
  lemma RestartMetaIff(H: Digest, chain: Chain)
    ensures (forall k :: 0 <= k < |chain| ==> MetaSurvives(Stage(chain[k]), k, Clean(H, chain, k).mem.appHash))
      <==> (forall tr: seq<Node>, i: nat :: IsTrace(H, chain, tr) && i < |tr| ==> RestartsAsSealed(H, chain, tr[i]))
  {
    hide LoadMetaFrom, Clean, Stage, ApplyPairs, IsTrace, HeightSurvives, MetaSurvives;
    if forall k :: 0 <= k < |chain| ==> MetaSurvives(Stage(chain[k]), k, Clean(H, chain, k).mem.appHash) {
      forall k | 0 <= k < |chain| ensures HeightSurvives(Stage(chain[k]), k) {
        MetaSurvivesHeight(Stage(chain[k]), k, Clean(H, chain, k).mem.appHash);
      }
      forall tr: seq<Node>, i: nat | IsTrace(H, chain, tr) && i < |tr| ensures RestartsAsSealed(H, chain, tr[i]) {
        TraceInv(H, chain, tr, i);
        CleanShape(H, chain, tr[i].next);
        if tr[i].next < |chain| { RestartExact(H, chain, tr[i].next); }
      }
    } else {
      var k :| 0 <= k < |chain| && !MetaSurvives(Stage(chain[k]), k, Clean(H, chain, k).mem.appHash);
      var before := CleanTrace(H, chain, k);
      var tr := ToFlushed(H, chain, before, k);
      RestartExact(H, chain, k);
      assert !RestartsAsSealed(H, chain, tr[|tr| - 1]);
    }
  }

  lemma MetaSurvivesHeight(ps: seq<Pair>, k: nat, hash: seq<byte>)
    requires MetaSurvives(ps, k, hash)
    ensures HeightSurvives(ps, k)
  {
  }

  lemma ApplyOne(db: DB, p: Pair)
    ensures ApplyPairs(db, [p]) == db[p.0 := p.1]
  {
    assert [p][..0] == [];
  }

  /** A client transaction that names the height key: committed without a crash it is
      harmless, but as the first block it leaves, after a crash inside its commit, an
      application that cannot start. */
  lemma HeightKeyWriteIsFatal(H: Digest, v: seq<byte>)
    ensures var chain: Chain := [[PrintTx(META_HEIGHT, v)]];
      && LoadMetaFrom(ApplyPairs(Clean(H, chain, 0).db, Stage(chain[0]))) == Fatal
      && UserMap(Clean(H, chain, 1).db) == map[]
  {
    var chain: Chain := [[PrintTx(META_HEIGHT, v)]];
    assert META_HEIGHT != [] && EQUALS !in META_HEIGHT;
    ParsePrint(META_HEIGHT, v);
    MetaKeysDiffer();
    CleanShape(H, chain, 0);
    NextUserMap(H, chain, 0);
    hide META_HEIGHT, META_HASH, Clean, Stage, ApplyPairs, PrintTx, IsValidTx, ParseTx;
    StageOne(PrintTx(META_HEIGHT, v));
    ApplyOne(map[], (META_HEIGHT, v));
    assert UserMap(map[META_HEIGHT := v]) == map[];
  }
}
