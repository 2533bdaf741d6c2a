/** Restarts after transactions have tampered with the metadata: exactly when the
    application always starts, exactly when a restart never resumes past the block in hand,
    and that the user data then converges however far back restarts fall. */
module KVReplay {
  import opened Bytes
  import opened KVTx
  import opened KVStore
  import opened KVProtocol

  /** The transactions from block k on. */
  function Tail(chain: Chain, k: nat): Block
    requires k <= |chain|
    decreases |chain| - k
  {
    if k == |chain| then [] else chain[k] + Tail(chain, k + 1)
  }

  lemma {:induction false} FlattenTail(chain: Chain, k: nat)
    requires k <= |chain|
    ensures Flatten(chain, k) + Tail(chain, k) == Flatten(chain, |chain|)
    decreases |chain| - k
  {
    hide Flatten, Tail;
    TailUnfold(chain, k);
    if k < |chain| {
      FlattenTail(chain, k + 1);
      FlattenUnfold(chain, k + 1);
      Associative(Flatten(chain, k), chain[k], Tail(chain, k + 1));
    } else {
      assert Flatten(chain, k) + [] == Flatten(chain, k);
    }
  }

  lemma TailUnfold(chain: Chain, k: nat)
    requires k <= |chain|
    ensures Tail(chain, k) == if k == |chain| then [] else chain[k] + Tail(chain, k + 1)
  {
  }

  lemma Associative(a: Block, b: Block, c: Block)
    ensures a + (b + c) == a + b + c
  {
  }

  /** Replaying the blocks from any index up to k on top of `db` gives the crash-free
      user map. */
  ghost predicate Converges(H: Digest, chain: Chain, db: DB, k: nat) {
    k <= |chain| && forall j: nat :: j <= k ==> Lands(H, chain, db, j)
  }

  ghost predicate Lands(H: Digest, chain: Chain, db: DB, j: nat)
    requires j <= |chain|
  {
    UserMap(ApplyPairs(db, Stage(Tail(chain, j)))) == UserMap(Clean(H, chain, |chain|).db)
  }

  lemma StartConverges(H: Digest, chain: Chain)
    ensures Converges(H, chain, map[], 0)
  {
    hide Clean, UserMap, Stage, ApplyPairs;
    FlattenTail(chain, 0);
    assert Flatten(chain, 0) + Tail(chain, 0) == Tail(chain, 0);
    CleanUserMap(H, chain, |chain|);
  }

  /** Convergence depends on the user map alone. */
  lemma ConvergesByUser(H: Digest, chain: Chain, db: DB, db': DB, k: nat)
    requires Converges(H, chain, db, k) && UserMap(db) == UserMap(db')
    ensures Converges(H, chain, db', k)
  {
    hide Clean, UserMap, Stage, ApplyPairs;
    forall j: nat | j <= k ensures Lands(H, chain, db', j) {
      assert Lands(H, chain, db, j);
      BatchOnUser(db, db', Stage(Tail(chain, j)));
    }
  }

  lemma {:induction false} StagedInTail(chain: Chain, j: nat, k: nat, p: Pair)
    requires j <= k < |chain| && p in Stage(chain[k])
    ensures p in Stage(Tail(chain, j))
    decreases k - j
  {
    hide Stage;
    StageConcat(chain[j], Tail(chain, j + 1));
    if j < k { StagedInTail(chain, j + 1, k, p); }
  }

  /** A batch disappears under a later one that writes all its keys. */
  lemma Absorbed(db: DB, b: seq<Pair>, t: seq<Pair>)
    requires forall p :: p in b ==> p in t
    ensures ApplyPairs(ApplyPairs(db, b), t) == ApplyPairs(db, t)
  {
    hide ApplyPairs, LastWrite;
    var two, one := ApplyPairs(ApplyPairs(db, b), t), ApplyPairs(db, t);
    forall k: seq<byte>
      ensures k in two <==> k in one
      ensures k in two ==> two[k] == one[k]
    {
      ApplyPairsAt(ApplyPairs(db, b), t, k);
      ApplyPairsAt(db, t, k);
      ApplyPairsAt(db, b, k);
      if p :| p in b && p.0 == k { WrittenKey(t, p); } else { UnwrittenKey(b, k); }
    }
  }

  /** Flushing the next block keeps every replay landing, and the one after it lands too. */
  lemma FlushConverges(H: Digest, chain: Chain, db: DB, k: nat)
    requires Converges(H, chain, db, k) && k < |chain|
    ensures Converges(H, chain, ApplyPairs(db, Stage(chain[k])), k + 1)
  {
    hide Clean, UserMap, Stage, ApplyPairs;
    var batch := Stage(chain[k]);
    forall j: nat | j <= k + 1 ensures Lands(H, chain, ApplyPairs(db, batch), j) {
      if j <= k {
        assert Lands(H, chain, db, j);
        forall p | p in batch ensures p in Stage(Tail(chain, j)) { StagedInTail(chain, j, k, p); }
        Absorbed(db, batch, Stage(Tail(chain, j)));
      } else {
        assert Lands(H, chain, db, k);
        StageConcat(chain[k], Tail(chain, k + 1));
        ApplyPairsConcat(db, batch, Stage(Tail(chain, k + 1)));
      }
    }
  }

  // ---------- Exactly when every restart succeeds ----------

  /** The batch's last write to the height key, if any, is long enough to read, and the
      very first block leaves a hash with it. */
  predicate LeavesLoadable(ps: seq<Pair>, k: nat) {
    match LastWrite(ps, META_HEIGHT)
    case None => true
    case Some(v) => |v| >= 8 && (k > 0 || LastWrite(ps, META_HASH).Some?)
  }

  /** A stored height can be read and comes with a hash. */
  predicate Loadable(db: DB) {
    META_HEIGHT in db ==> |db[META_HEIGHT]| >= 8 && META_HASH in db
  }

  lemma LoadableIff(db: DB)
    ensures Loadable(db) <==> LoadMetaFrom(db).Meta?
    ensures LoadMetaFrom(db).Meta? && LoadMetaFrom(db).height != 0 ==> META_HASH in db
  {
  }

  /** The staged batch is that of the block in hand. */
  ghost predicate InHand(chain: Chain, s: Node) {
    !s.phase.Idle? ==>
      s.next < |chain| && s.app.mem.height == s.next + 1 && s.app.mem.staged == Stage(chain[s.next])
  }

  lemma InHandStep(H: Digest, chain: Chain, s: Node, s': Node)
    requires InHand(chain, s) && Next(H, chain, s, s')
    ensures InHand(chain, s')
  {
    hide Stage, ApplyPairs, Seal, LoadMetaFrom;
  }

  ghost predicate LoadInv(chain: Chain, s: Node) {
    InHand(chain, s) && Loadable(s.app.db) && (s.next > 0 ==> META_HASH in s.app.db)
  }

  lemma FlushLoadable(db: DB, ps: seq<Pair>, k: nat)
    requires Loadable(db) && (k > 0 ==> META_HASH in db)
    ensures LeavesLoadable(ps, k) ==> Loadable(ApplyPairs(db, ps))
    ensures k > 0 ==> META_HASH in ApplyPairs(db, ps)
    ensures META_HEIGHT !in db && META_HASH !in db && k == 0 && Loadable(ApplyPairs(db, ps)) ==> LeavesLoadable(ps, k)
    ensures k > 0 && Loadable(ApplyPairs(db, ps)) ==> LeavesLoadable(ps, k)
  {
    ApplyPairsAt(db, ps, META_HEIGHT);
    ApplyPairsAt(db, ps, META_HASH);
    hide META_HEIGHT, META_HASH, ApplyPairs, LastWrite;
  }

  lemma SealLoadable(db: DB, height: int64, hash: seq<byte>)
    ensures Loadable(SaveMetaIn(db, height, hash)) && META_HASH in SaveMetaIn(db, height, hash)
  {
    LoadSaved(db, height, hash);
    LoadableIff(SaveMetaIn(db, height, hash));
    hide META_HEIGHT, META_HASH, HeightBytes;
  }

  lemma LoadStep(H: Digest, chain: Chain, s: Node, s': Node)
    requires forall k :: 0 <= k < |chain| ==> LeavesLoadable(Stage(chain[k]), k)
    requires LoadInv(chain, s) && Next(H, chain, s, s')
    ensures LoadInv(chain, s')
  {
    hide Stage, ApplyPairs, Preimage, SaveMetaIn, LoadMetaFrom, LeavesLoadable, Loadable, META_HASH;
    InHandStep(H, chain, s, s');
    hide InHand;
    if Restart(s, s') {
      LoadableIff(s.app.db);
    } else if s.phase.Flushed? {
      SealLoadable(s.app.db, s.app.mem.height, H(Preimage(s.app.db)));
    } else if s.phase.Finalized? {
      assert s.next < |chain| && s.app.mem.staged == Stage(chain[s.next]) by { HasInHand(chain, s); }
      FlushLoadable(s.app.db, s.app.mem.staged, s.next);
    }
  }

  lemma HasInHand(chain: Chain, s: Node)
    requires InHand(chain, s) && !s.phase.Idle?
    ensures s.next < |chain| && s.app.mem.staged == Stage(chain[s.next])
  {
  }

  lemma {:induction false} LoadTrace(H: Digest, chain: Chain, tr: seq<Node>, i: nat)
    requires forall k :: 0 <= k < |chain| ==> LeavesLoadable(Stage(chain[k]), k)
    requires IsTrace(H, chain, tr) && i < |tr|
    ensures LoadInv(chain, tr[i])
  {
    if i > 0 {
      hide LoadInv, Next, LeavesLoadable;
      LoadTrace(H, chain, tr, i - 1);
      LoadStep(H, chain, tr[i - 1], tr[i]);
    }
  }

  /** The application can be started again from every reachable state exactly when no
      block leaves a height too short to read and the first block, if it leaves a height,
      leaves a hash as well. */
  lemma NeverFatalIff(H: Digest, chain: Chain)
    ensures (forall k :: 0 <= k < |chain| ==> LeavesLoadable(Stage(chain[k]), k))
      <==> (forall tr: seq<Node>, i: nat :: IsTrace(H, chain, tr) && i < |tr| ==> LoadMetaFrom(tr[i].app.db).Meta?)
  {
    hide LoadMetaFrom, Clean, Stage, ApplyPairs, IsTrace, LeavesLoadable, Loadable;
    if forall k :: 0 <= k < |chain| ==> LeavesLoadable(Stage(chain[k]), k) {
      forall tr: seq<Node>, i: nat | IsTrace(H, chain, tr) && i < |tr| ensures LoadMetaFrom(tr[i].app.db).Meta? {
        LoadTrace(H, chain, tr, i);
        LoadableIff(tr[i].app.db);
      }
    } else {
      var k :| 0 <= k < |chain| && !LeavesLoadable(Stage(chain[k]), k);
      var before := CleanTrace(H, chain, k);
      var tr := ToFlushed(H, chain, before, k);
      CleanShape(H, chain, k);
      LoadableIff(Clean(H, chain, k).db);
      FlushLoadable(Clean(H, chain, k).db, Stage(chain[k]), k);
      LoadableIff(tr[|tr| - 1].app.db);
      assert !LoadMetaFrom(tr[|tr| - 1].app.db).Meta?;
    }
  }

  // ---------- Exactly when no restart resumes too far ahead ----------

  /** The batch does not leave a readable height above k + 1, that of its own block. */
  predicate AtMostNext(ps: seq<Pair>, k: nat) {
    match LastWrite(ps, META_HEIGHT)
    case None => true
    case Some(v) => |v| >= 8 ==> HeightOf(v) <= k + 1
  }

  predicate LeavesZero(ps: seq<Pair>) {
    match LastWrite(ps, META_HEIGHT)
    case None => false
    case Some(v) => |v| >= 8 && HeightOf(v) == 0
  }

  /** The first block leaves no hash, and no later block sends a restart back to it: a
      height it leaves is then never read. */
  predicate FirstUnread(chain: Chain) {
    && chain != [] && LastWrite(Stage(chain[0]), META_HASH).None?
    && forall j :: 1 <= j < |chain| ==> !LeavesZero(Stage(chain[j]))
  }

  /** Checkable from the blocks alone, and weaker than being height-safe. */
  predicate NeverAhead(chain: Chain) {
    forall k :: 0 <= k < |chain| ==> AtMostNext(Stage(chain[k]), k) || (k == 0 && FirstUnread(chain))
  }

  lemma HeightSafeIsNeverAhead(chain: Chain)
    requires HeightSafe(chain)
    ensures NeverAhead(chain)
  {
    hide Stage;
    forall k | 0 <= k < |chain| ensures AtMostNext(Stage(chain[k]), k) { assert HeightSurvives(Stage(chain[k]), k); }
  }

  /** How many blocks are in the database, as far as the current delivery got. */
  function Reached(s: Node): nat {
    s.next + if s.phase.Flushed? then 1 else 0
  }

  /** A restart from here, if it succeeds, resumes at or before the block in hand. */
  ghost predicate ResumesWithin(s: Node) {
    var l := LoadMetaFrom(s.app.db);
    l.Meta? ==> l.height <= Reached(s)
  }

  /** A height stored in the database, if it can be read, is at most k. */
  predicate HeightBound(db: DB, k: nat) {
    META_HEIGHT in db && |db[META_HEIGHT]| >= 8 ==> HeightOf(db[META_HEIGHT]) <= k
  }

  /** A height is stored, and no restart reads it as zero. */
  predicate PastStart(db: DB) {
    META_HEIGHT in db && (|db[META_HEIGHT]| >= 8 ==> HeightOf(db[META_HEIGHT]) != 0)
  }

  lemma FlushBound(db: DB, ps: seq<Pair>, k: nat)
    requires HeightBound(db, k) && AtMostNext(ps, k)
    ensures HeightBound(ApplyPairs(db, ps), k + 1)
    ensures PastStart(db) && !LeavesZero(ps) ==> PastStart(ApplyPairs(db, ps))
  {
    ApplyPairsAt(db, ps, META_HEIGHT);
    hide META_HEIGHT, HeightOf, ApplyPairs, LastWrite;
  }

  lemma SealBound(db: DB, k: int64, hash: seq<byte>)
    requires k > 0
    ensures HeightBound(SaveMetaIn(db, k, hash), k) && PastStart(SaveMetaIn(db, k, hash))
  {
    MetaKeysDiffer();
    HeightRoundTrip(k);
    hide META_HEIGHT, META_HASH, HeightBytes, HeightOf;
  }

  lemma LoadBound(db: DB, k: nat)
    ensures HeightBound(db, k) && LoadMetaFrom(db).Meta? ==> LoadMetaFrom(db).height <= k
    ensures LoadMetaFrom(db).Meta? && LoadMetaFrom(db).height >= 0 ==> HeightBound(db, LoadMetaFrom(db).height)
    ensures LoadMetaFrom(db).Meta? && PastStart(db) ==> LoadMetaFrom(db).height != 0
  {
  }

  /** What holds when no block at all leaves a height above its own. */
  ghost predicate BoundInv(chain: Chain, s: Node) {
    InHand(chain, s) && HeightBound(s.app.db, Reached(s))
  }

  lemma BoundStep(H: Digest, chain: Chain, s: Node, s': Node)
    requires forall k :: 0 <= k < |chain| ==> AtMostNext(Stage(chain[k]), k)
    requires BoundInv(chain, s) && Next(H, chain, s, s')
    ensures BoundInv(chain, s')
  {
    hide Stage, ApplyPairs, Preimage, SaveMetaIn, LoadMetaFrom, AtMostNext, HeightBound;
    InHandStep(H, chain, s, s');
    if Restart(s, s') {
      LoadBound(s.app.db, s.next);
    } else if s.phase.Flushed? {
      SealBound(s.app.db, s.app.mem.height, H(Preimage(s.app.db)));
    } else if s.phase.Finalized? {
      FlushBound(s.app.db, s.app.mem.staged, s.next);
    }
  }

  /** What holds when the first block's height is never read: before it is sealed the
      database holds nothing else, and after that no restart goes back to it. */
  ghost predicate UnreadInv(chain: Chain, s: Node) {
    && InHand(chain, s)
    && if s.next == 0 then s.app.db == if s.phase.Flushed? then ApplyPairs(map[], s.app.mem.staged) else map[]
       else HeightBound(s.app.db, Reached(s)) && PastStart(s.app.db)
  }

  lemma FirstBatchFatal(ps: seq<Pair>)
    requires !AtMostNext(ps, 0) && LastWrite(ps, META_HASH).None?
    ensures LoadMetaFrom(ApplyPairs(map[], ps)).Fatal?
  {
    ApplyPairsAt(map[], ps, META_HEIGHT);
    ApplyPairsAt(map[], ps, META_HASH);
    hide META_HEIGHT, META_HASH, HeightOf, ApplyPairs, LastWrite;
  }

  lemma EmptyLoads()
    ensures LoadMetaFrom(map[]) == Meta(0, [])
  {
  }

  lemma UnreadRestart(chain: Chain, s: Node, s': Node)
    requires FirstUnread(chain) && !AtMostNext(Stage(chain[0]), 0)
    requires UnreadInv(chain, s) && Restart(s, s')
    ensures UnreadInv(chain, s')
  {
    hide Stage, ApplyPairs, LoadMetaFrom, AtMostNext, HeightBound, PastStart;
    EmptyLoads();
    LoadBound(s.app.db, s.next);
    if s.next == 0 && s.phase.Flushed? { FirstBatchFatal(Stage(chain[0])); }
  }

  lemma UnreadStep(H: Digest, chain: Chain, s: Node, s': Node)
    requires FirstUnread(chain) && !AtMostNext(Stage(chain[0]), 0)
    requires forall k :: 1 <= k < |chain| ==> AtMostNext(Stage(chain[k]), k)
    requires UnreadInv(chain, s) && Next(H, chain, s, s')
    ensures UnreadInv(chain, s')
  {
    hide Stage, ApplyPairs, Preimage, SaveMetaIn, LoadMetaFrom, AtMostNext, LeavesZero, HeightBound, PastStart, Restart;
    if Restart(s, s') {
      UnreadRestart(chain, s, s');
    } else {
      InHandStep(H, chain, s, s');
      if s.phase.Flushed? {
        SealBound(s.app.db, s.app.mem.height, H(Preimage(s.app.db)));
      } else if s.phase.Finalized? && s.next > 0 {
        FlushBound(s.app.db, s.app.mem.staged, s.next);
      }
    }
  }

  lemma {:induction false} BoundTrace(H: Digest, chain: Chain, tr: seq<Node>, i: nat)
    requires forall k :: 0 <= k < |chain| ==> AtMostNext(Stage(chain[k]), k)
    requires IsTrace(H, chain, tr) && i < |tr|
    ensures BoundInv(chain, tr[i])
  {
    if i > 0 {
      hide BoundInv, Next, AtMostNext;
      BoundTrace(H, chain, tr, i - 1);
      BoundStep(H, chain, tr[i - 1], tr[i]);
    }
  }

  lemma {:induction false} UnreadTrace(H: Digest, chain: Chain, tr: seq<Node>, i: nat)
    requires FirstUnread(chain) && !AtMostNext(Stage(chain[0]), 0)
    requires forall k :: 1 <= k < |chain| ==> AtMostNext(Stage(chain[k]), k)
    requires IsTrace(H, chain, tr) && i < |tr|
    ensures UnreadInv(chain, tr[i])
  {
    if i > 0 {
      hide UnreadInv, Next, AtMostNext, FirstUnread;
      UnreadTrace(H, chain, tr, i - 1);
      UnreadStep(H, chain, tr[i - 1], tr[i]);
    }
  }

  lemma TraceResumesWithin(H: Digest, chain: Chain, tr: seq<Node>, i: nat)
    requires NeverAhead(chain) && IsTrace(H, chain, tr) && i < |tr|
    ensures ResumesWithin(tr[i])
  {
    hide Stage, ApplyPairs, IsTrace, LoadMetaFrom, AtMostNext, HeightBound, PastStart;
    var s := tr[i];
    LoadBound(s.app.db, Reached(s));
    if forall k :: 0 <= k < |chain| ==> AtMostNext(Stage(chain[k]), k) {
      BoundTrace(H, chain, tr, i);
    } else {
      UnreadTrace(H, chain, tr, i);
      EmptyLoads();
      if s.next == 0 && s.phase.Flushed? { FirstBatchFatal(Stage(chain[0])); }
    }
  }

  lemma AheadLoads(db: DB, ps: seq<Pair>, k: nat)
    requires !AtMostNext(ps, k) && (META_HASH in db || LastWrite(ps, META_HASH).Some?)
    ensures LoadMetaFrom(ApplyPairs(db, ps)).Meta? && LoadMetaFrom(ApplyPairs(db, ps)).height > k + 1
  {
    ApplyPairsAt(db, ps, META_HEIGHT);
    ApplyPairsAt(db, ps, META_HASH);
    hide META_HEIGHT, META_HASH, HeightOf, ApplyPairs, LastWrite;
  }

  lemma ZeroLoads(db: DB, ps: seq<Pair>)
    requires LeavesZero(ps) && META_HASH in db
    ensures LoadMetaFrom(ApplyPairs(db, ps)).Meta? && LoadMetaFrom(ApplyPairs(db, ps)).height == 0
    ensures META_HASH in ApplyPairs(db, ps)
  {
    ApplyPairsAt(db, ps, META_HEIGHT);
    ApplyPairsAt(db, ps, META_HASH);
    hide META_HEIGHT, META_HASH, HeightOf, ApplyPairs, LastWrite;
  }

  /** A run into a state that resumes too far ahead: deliver up to the offending block; if
      that is the first one, without a hash, first go back to it from a block that leaves
      height zero. */
  lemma AheadTrace(H: Digest, chain: Chain, k: nat) returns (tr: seq<Node>)
    requires k < |chain| && !AtMostNext(Stage(chain[k]), k) && !(k == 0 && FirstUnread(chain))
    ensures IsTrace(H, chain, tr) && tr != [] && !ResumesWithin(tr[|tr| - 1])
  {
    hide Clean, Stage, ApplyPairs, LoadMetaFrom, LastWrite, AtMostNext, LeavesZero, META_HASH, META_HEIGHT, Next;
    if k > 0 || LastWrite(Stage(chain[0]), META_HASH).Some? {
      var before := CleanTrace(H, chain, k);
      tr := ToFlushed(H, chain, before, k);
      CleanShape(H, chain, k);
      AheadLoads(Clean(H, chain, k).db, Stage(chain[k]), k);
    } else {
      var j :| 1 <= j < |chain| && LeavesZero(Stage(chain[j]));
      var before := CleanTrace(H, chain, j);
      var crashed := ToFlushed(H, chain, before, j);
      CleanShape(H, chain, j);
      ZeroLoads(Clean(H, chain, j).db, Stage(chain[j]));
      var back := RestartTrace(H, chain, crashed);
      tr := FlushTrace(H, chain, back);
      AheadLoads(back[|back| - 1].app.db, Stage(chain[0]), 0);
    }
  }

  /** No restart resumes past the block in hand, in any reachable state, exactly when no
      block leaves a readable height above its own; a first block without a hash counts
      only if a later block leaves height zero. */
  lemma NeverAheadIff(H: Digest, chain: Chain)
    ensures NeverAhead(chain) <==>
      forall tr: seq<Node>, i: nat :: IsTrace(H, chain, tr) && i < |tr| ==> ResumesWithin(tr[i])
  {
    hide Stage, IsTrace, AtMostNext, FirstUnread, ResumesWithin;
    if NeverAhead(chain) {
      forall tr: seq<Node>, i: nat | IsTrace(H, chain, tr) && i < |tr| ensures ResumesWithin(tr[i]) {
        TraceResumesWithin(H, chain, tr, i);
      }
    } else {
      var k :| 0 <= k < |chain| && !AtMostNext(Stage(chain[k]), k) && !(k == 0 && FirstUnread(chain));
      var tr := AheadTrace(H, chain, k);
    }
  }

  // ---------- Then the user data converges ----------

  ghost predicate ReplayInv(H: Digest, chain: Chain, s: Node) {
    InHand(chain, s) && Converges(H, chain, s.app.db, Reached(s))
  }

  lemma ReplayStep(H: Digest, chain: Chain, s: Node, s': Node)
    requires ResumesWithin(s) && ReplayInv(H, chain, s) && Next(H, chain, s, s')
    ensures ReplayInv(H, chain, s')
  {
    hide Lands, Stage, ApplyPairs, Preimage, UserMap, SaveMetaIn, LoadMetaFrom;
    InHandStep(H, chain, s, s');
    if !Restart(s, s') && s.phase.Flushed? {
      SaveMetaKeepsUser(s.app.db, s.app.mem.height, H(Preimage(s.app.db)));
      ConvergesByUser(H, chain, s.app.db, s'.app.db, s.next + 1);
    } else if !Restart(s, s') && s.phase.Finalized? {
      FlushConverges(H, chain, s.app.db, s.next);
    }
  }

  lemma {:induction false} ReplayTrace(H: Digest, chain: Chain, tr: seq<Node>, i: nat)
    requires NeverAhead(chain) && IsTrace(H, chain, tr) && i < |tr|
    ensures ReplayInv(H, chain, tr[i])
  {
    if i == 0 {
      StartConverges(H, chain);
    } else {
      hide ReplayInv, Next, NeverAhead, ResumesWithin;
      ReplayTrace(H, chain, tr, i - 1);
      TraceResumesWithin(H, chain, tr, i - 1);
      ReplayStep(H, chain, tr[i - 1], tr[i]);
    }
  }

  lemma {:induction false} ResumeUserMap(H: Digest, chain: Chain, app: App, k: nat)
    requires k <= |chain|
    ensures UserMap(Resume(H, chain, app, k).db) == UserMap(ApplyPairs(app.db, Stage(Tail(chain, k))))
    decreases |chain| - k
  {
    hide UserMap, ApplyPairs, Stage, SaveMetaIn;
    if k < |chain| {
      var delivered := Deliver(H, app, k + 1, chain[k]);
      var flushed := ApplyPairs(app.db, Stage(chain[k]));
      SaveMetaKeepsUser(flushed, k + 1, H(Preimage(flushed)));
      ResumeUserMap(H, chain, delivered, k + 1);
      BatchOnUser(flushed, delivered.db, Stage(Tail(chain, k + 1)));
      StageConcat(chain[k], Tail(chain, k + 1));
      ApplyPairsConcat(app.db, Stage(chain[k]), Stage(Tail(chain, k + 1)));
    } else {
      NothingStaged(app.db);
    }
  }

  lemma NothingStaged(db: DB)
    ensures ApplyPairs(db, Stage([])) == db
  {
  }

  /** Convergence without height safety. If no restart resumes past the block in hand, then
      in every reachable state, with any crashes and however far back restarts fell:
      redelivering the blocks above the height a restart would load, if it loads one,
      gives the crash-free user map; and when all blocks are delivered it is there. */
  lemma ReplayConverges(H: Digest, chain: Chain, tr: seq<Node>, i: nat)
    requires NeverAhead(chain) && IsTrace(H, chain, tr) && i < |tr|
    ensures var s := tr[i]; var l := LoadMetaFrom(s.app.db); var final := UserMap(Clean(H, chain, |chain|).db);
      && Reached(s) <= |chain|
      && (l.Meta? && l.height >= 0 ==>
            && l.height <= Reached(s)
            && UserMap(Resume(H, chain, App(s.app.db, Mem(l.height, l.hash, [])), l.height).db) == final)
      && (s.phase.Idle? && s.next == |chain| ==> UserMap(s.app.db) == final)
  {
    hide LoadMetaFrom, Clean, Resume, Stage, ApplyPairs, IsTrace, NeverAhead, UserMap;
    ReplayTrace(H, chain, tr, i);
    TraceResumesWithin(H, chain, tr, i);
    var s := tr[i];
    var l := LoadMetaFrom(s.app.db);
    if l.Meta? && l.height >= 0 {
      assert Lands(H, chain, s.app.db, l.height);
      ResumeUserMap(H, chain, App(s.app.db, Mem(l.height, l.hash, [])), l.height);
    }
    if s.next == |chain| {
      assert Lands(H, chain, s.app.db, |chain|);
      NothingStaged(s.app.db);
    }
  }

  // ---------- What a height too far ahead does ----------

  /** If block k's batch leaves a readable height h of at least k + 2, then after a crash
      inside its commit a run without further crashes delivers the blocks from index h on,
      counts all blocks as delivered, and has missed those with index k + 1, ..., h - 1. */
  lemma AheadSkips(H: Digest, chain: Chain, k: nat, h: nat, hash: seq<byte>) returns (tr: seq<Node>)
    requires k + 2 <= h <= |chain|
    requires LoadMetaFrom(ApplyPairs(Clean(H, chain, k).db, Stage(chain[k]))) == Meta(h, hash)
    ensures IsTrace(H, chain, tr) && tr != []
    ensures var s := tr[|tr| - 1];
      && s.phase.Idle? && s.next == |chain|
      && UserMap(s.app.db) == UserMap(ApplyPairs(map[], Stage(Flatten(chain, k + 1) + Tail(chain, h))))
  {
    hide LoadMetaFrom, Clean, Stage, ApplyPairs, UserMap, Resume, Flatten, Tail, Next;
    var before := CleanTrace(H, chain, k);
    tr := ToFlushed(H, chain, before, k);
    tr := RestartTrace(H, chain, tr);
    var s := tr[|tr| - 1];
    tr := DeliverTrace(H, chain, tr);
    ResumeUserMap(H, chain, s.app, h);
    NextUserMap(H, chain, k);
    CleanUserMap(H, chain, k + 1);
    var kept := ApplyPairs(map[], Stage(Flatten(chain, k + 1)));
    BatchOnUser(s.app.db, kept, Stage(Tail(chain, h)));
    StageConcat(Flatten(chain, k + 1), Tail(chain, h));
    ApplyPairsConcat(map[], Stage(Flatten(chain, k + 1)), Stage(Tail(chain, h)));
  }

  lemma StageTwo(a: seq<byte>, b: seq<byte>)
    requires IsValidTx(a) && IsValidTx(b)
    ensures Stage([a, b]) == [ParseTx(a), ParseTx(b)]
  {
    hide Stage, IsValidTx, ParseTx;
    assert [a, b] == [a] + [b];
    StageConcat([a], [b]);
    StageOne(a);
    StageOne(b);
  }

  lemma ApplyTwo(db: DB, p: Pair, q: Pair)
    ensures ApplyPairs(db, [p, q]) == db[p.0 := p.1][q.0 := q.1]
  {
    assert [p, q] == [p] + [q];
    ApplyPairsConcat(db, [p], [q]);
    ApplyOne(db, p);
    ApplyOne(db[p.0 := p.1], q);
  }

  lemma PrintsUser(key: seq<byte>, v: seq<byte>)
    requires key != [] && EQUALS !in key
    ensures IsValidTx(PrintTx(key, v)) && ParseTx(PrintTx(key, v)) == (key, v)
  {
    ParsePrint(key, v);
  }

  /** Such a chain: its first block writes height 2 and a hash, the second sets a key. All
      blocks count as delivered, and the key is missing. */
  lemma SkippedBlockWitness(H: Digest, hash: seq<byte>) returns (tr: seq<Node>)
    ensures var a, one := Ascii("a"), Ascii("1");
      var chain: Chain := [[PrintTx(META_HEIGHT, HeightBytes(2)), PrintTx(META_HASH, hash)], [PrintTx(a, one)]];
      && IsTrace(H, chain, tr) && tr != []
      && var s := tr[|tr| - 1];
         && s.phase.Idle? && s.next == |chain|
         && UserMap(s.app.db) == map[] && UserMap(Clean(H, chain, |chain|).db) == map[a := one]
  {
    var a, one := Ascii("a"), Ascii("1");
    var raise, rehash, set1 := PrintTx(META_HEIGHT, HeightBytes(2)), PrintTx(META_HASH, hash), PrintTx(a, one);
    var chain: Chain := [[raise, rehash], [set1]];
    KeysPrint();
    PrintsUser(META_HEIGHT, HeightBytes(2));
    PrintsUser(META_HASH, hash);
    PrintsUser(a, one);
    hide META_HEIGHT, META_HASH, Clean, Stage, ApplyPairs, PrintTx, IsValidTx, ParseTx;
    hide Ascii, HeightBytes, IsTrace, UserMap, LoadMetaFrom, Flatten, Tail;
    StageTwo(raise, rehash);
    StageOne(set1);
    WitnessLoads(H, chain, hash);
    tr := AheadSkips(H, chain, 0, 2, hash);
    TailUnfold(chain, 2);
    assert Flatten(chain, 1) + [] == Flatten(chain, 1);
    CleanUserMap(H, chain, 1);
    WitnessUserMaps(H, chain, a, one, hash);
  }

  lemma KeysPrint()
    ensures Ascii("a") != [] && EQUALS !in Ascii("a") && !IsMeta(Ascii("a"))
    ensures META_HEIGHT != [] && EQUALS !in META_HEIGHT
    ensures META_HASH != [] && EQUALS !in META_HASH
  {
    assert |META_HEIGHT| == 13 && |META_HASH| == 14 && |Ascii("a")| == 1;
  }

  lemma WitnessLoads(H: Digest, chain: Chain, hash: seq<byte>)
    requires |chain| == 2 && Stage(chain[0]) == [(META_HEIGHT, HeightBytes(2)), (META_HASH, hash)]
    ensures LoadMetaFrom(ApplyPairs(Clean(H, chain, 0).db, Stage(chain[0]))) == Meta(2, hash)
  {
    hide META_HEIGHT, META_HASH, Clean, Stage, ApplyPairs, HeightBytes, LoadMetaFrom;
    CleanShape(H, chain, 0);
    ApplyTwo(map[], (META_HEIGHT, HeightBytes(2)), (META_HASH, hash));
    LoadSaved(map[], 2, hash);
  }

  lemma WitnessUserMaps(H: Digest, chain: Chain, a: seq<byte>, one: seq<byte>, hash: seq<byte>)
    requires |chain| == 2 && !IsMeta(a) && Stage(chain[1]) == [(a, one)]
    requires Stage(chain[0]) == [(META_HEIGHT, HeightBytes(2)), (META_HASH, hash)]
    ensures UserMap(Clean(H, chain, 1).db) == map[]
    ensures UserMap(Clean(H, chain, 2).db) == map[a := one]
  {
    hide META_HEIGHT, META_HASH, Clean, Stage, ApplyPairs, HeightBytes, HeightOf;
    CleanShape(H, chain, 0);
    NextUserMap(H, chain, 0);
    ApplyTwo(map[], (META_HEIGHT, HeightBytes(2)), (META_HASH, hash));
    NextUserMap(H, chain, 1);
    var db := Clean(H, chain, 1).db;
    ApplyOne(db, (a, one));
    assert UserMap(db[a := one]) == UserMap(db)[a := one];
  }
}
