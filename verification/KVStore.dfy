/** The durable map of the key-value application: batch writes, metadata, and the hash. */
module KVStore {
  import opened Bytes
  import opened KVTx

  type DB = map<seq<byte>, seq<byte>>

  const META_HEIGHT: seq<byte> := Ascii("__meta_height")
  const META_HASH: seq<byte> := Ascii("__meta_apphash")

  type int64 = x: int | -0x8000_0000_0000_0000 <= x < 0x8000_0000_0000_0000

  function HeightBytes(h: int64): seq<byte> {
    Uint64Bytes(if h < 0 then h + TWO_64 else h)
  }

  function HeightOf(b: seq<byte>): int64
    requires |b| >= 8
  {
    var v := Uint64Of(b);
    if v < 0x8000_0000_0000_0000 then v else v - TWO_64
  }

  lemma HeightRoundTrip(h: int64)
    ensures HeightOf(HeightBytes(h)) == h
  {
    Uint64RoundTrip(if h < 0 then h + TWO_64 else h);
  }

  lemma MetaKeysDiffer()
    ensures META_HEIGHT != META_HASH
  {
    assert |META_HEIGHT| == 13 && |META_HASH| == 14;
  }

  predicate IsMeta(k: seq<byte>) {
    k == META_HEIGHT || k == META_HASH
  }

  // ---------- One batch of writes ----------

  function ApplyPairs(db: DB, ps: seq<Pair>): DB {
    if ps == [] then db
    else
      var last := ps[|ps| - 1];
      ApplyPairs(db, ps[..|ps| - 1])[last.0 := last.1]
  }

  /** The value the batch leaves under a key, if it writes it at all. */
  function LastWrite(ps: seq<Pair>, k: seq<byte>): Option<seq<byte>> {
    if ps == [] then None
    else if ps[|ps| - 1].0 == k then Some(ps[|ps| - 1].1)
    else LastWrite(ps[..|ps| - 1], k)
  }

  lemma {:induction false} ApplyPairsAt(db: DB, ps: seq<Pair>, k: seq<byte>)
    ensures k in ApplyPairs(db, ps) <==> k in db || LastWrite(ps, k).Some?
    ensures LastWrite(ps, k).Some? ==> ApplyPairs(db, ps)[k] == LastWrite(ps, k).value
    ensures LastWrite(ps, k).None? && k in db ==> ApplyPairs(db, ps)[k] == db[k]
  {
    if ps != [] { ApplyPairsAt(db, ps[..|ps| - 1], k); }
  }

  /** It is the value of the last pair with that key. */
  lemma {:induction false} LastWriteIs(ps: seq<Pair>, k: seq<byte>, i: nat)
    requires i < |ps| && ps[i].0 == k && forall j :: i < j < |ps| ==> ps[j].0 != k
    ensures LastWrite(ps, k) == Some(ps[i].1)
  {
    if i < |ps| - 1 { LastWriteIs(ps[..|ps| - 1], k, i); }
  }

  lemma {:induction false} UnwrittenKey(ps: seq<Pair>, k: seq<byte>)
    requires forall p :: p in ps ==> p.0 != k
    ensures LastWrite(ps, k).None?
  {
    if ps != [] { UnwrittenKey(ps[..|ps| - 1], k); }
  }

  lemma {:induction false} WrittenKey(ps: seq<Pair>, p: Pair)
    requires p in ps
    ensures LastWrite(ps, p.0).Some?
  {
    if ps[|ps| - 1].0 != p.0 {
      assert ps == ps[..|ps| - 1] + [ps[|ps| - 1]];
      WrittenKey(ps[..|ps| - 1], p);
    }
  }

  /** Applying a batch twice is applying it once. */
  lemma BatchIdempotent(db: DB, ps: seq<Pair>)
    ensures ApplyPairs(ApplyPairs(db, ps), ps) == ApplyPairs(db, ps)
  {
    var once := ApplyPairs(db, ps);
    var twice := ApplyPairs(once, ps);
    forall k: seq<byte>
      ensures k in twice <==> k in once
      ensures k in once ==> twice[k] == once[k]
    {
      ApplyPairsAt(db, ps, k);
      ApplyPairsAt(once, ps, k);
    }
  }

  lemma {:induction false} ApplyPairsConcat(db: DB, a: seq<Pair>, b: seq<Pair>)
    ensures ApplyPairs(db, a + b) == ApplyPairs(ApplyPairs(db, a), b)
  {
    if b == [] {
      assert a + b == a;
    } else {
      ApplyPairsConcat(db, a, b[..|b| - 1]);
      assert (a + b)[..|a + b| - 1] == a + b[..|b| - 1];
    }
  }

  // ---------- Metadata ----------

  function SaveMetaIn(db: DB, height: int64, hash: seq<byte>): DB {
    db[META_HEIGHT := HeightBytes(height)][META_HASH := hash]
  }

  /** What LoadMeta finds; Fatal when the height is too short to read (a panic) or is
      there without the hash (an error). Both stop the process. */
  datatype Loaded = Meta(height: int64, hash: seq<byte>) | Fatal

  function LoadMetaFrom(db: DB): Loaded {
    if META_HEIGHT !in db then Meta(0, [])
    else if |db[META_HEIGHT]| < 8 || META_HASH !in db then Fatal
    else Meta(HeightOf(db[META_HEIGHT]), db[META_HASH])
  }

  lemma LoadSaved(db: DB, height: int64, hash: seq<byte>)
    ensures LoadMetaFrom(SaveMetaIn(db, height, hash)) == Meta(height, hash)
  {
    MetaKeysDiffer();
    HeightRoundTrip(height);
  }

  /** The metadata as bytes under their own names, the height as a two's complement
      big-endian integer. */
  lemma MetaForm(db: DB, h: int64, hash: seq<byte>)
    ensures SaveMetaIn(db, h, hash) ==
      db[Ascii("__meta_height") := Uint64Bytes(if h < 0 then h + TWO_64 else h)][Ascii("__meta_apphash") := hash]
  {
  }

  // ---------- The hash pre-image ----------

  /** The user map is the whole database but for exactly the two metadata keys. */
  lemma UserMapIs(db: DB)
    ensures forall k :: k in UserMap(db) <==> k in db && k != Ascii("__meta_height") && k != Ascii("__meta_apphash")
    ensures forall k :: k in UserMap(db) ==> UserMap(db)[k] == db[k]
  {
  }

  function UserMap(db: DB): DB {
    map k | k in db && !IsMeta(k) :: db[k]
  }

  /** What one key contributes: itself and its value. */
  function Entry(db: DB, k: seq<byte>): seq<byte> {
    if k in db then k + db[k] else []
  }

  function Feed(db: DB, ks: seq<seq<byte>>): seq<byte> {
    if ks == [] then [] else Feed(db, ks[..|ks| - 1]) + Entry(db, ks[|ks| - 1])
  }

  /** The user keys in database order, each followed by its value. */
  ghost function Preimage(db: DB): seq<byte> {
    Feed(UserMap(db), SortedKeys(UserMap(db).Keys))
  }

  lemma SaveMetaKeepsUser(db: DB, height: int64, hash: seq<byte>)
    ensures UserMap(SaveMetaIn(db, height, hash)) == UserMap(db)
    ensures Preimage(SaveMetaIn(db, height, hash)) == Preimage(db)
  {
    assert UserMap(SaveMetaIn(db, height, hash)) == UserMap(db);
  }

  /** A batch's effect on the user map depends on nothing but the user map. */
  lemma BatchOnUser(db1: DB, db2: DB, ps: seq<Pair>)
    requires UserMap(db1) == UserMap(db2)
    ensures UserMap(ApplyPairs(db1, ps)) == UserMap(ApplyPairs(db2, ps))
  {
    var u1, u2 := UserMap(ApplyPairs(db1, ps)), UserMap(ApplyPairs(db2, ps));
    forall k: seq<byte>
      ensures k in u1 <==> k in u2
      ensures k in u1 ==> u1[k] == u2[k]
    {
      ApplyPairsAt(db1, ps, k);
      ApplyPairsAt(db2, ps, k);
      assert k in UserMap(db1) <==> k in UserMap(db2);
    }
  }

  /** The batch writes to every user key it names, last, the value already there. */
  ghost predicate RepeatsUser(db: DB, ps: seq<Pair>) {
    forall p :: p in ps && !IsMeta(p.0) ==> p.0 in db && LastWrite(ps, p.0) == Some(db[p.0])
  }

  lemma UserUnchangedIff(db: DB, ps: seq<Pair>)
    ensures UserMap(ApplyPairs(db, ps)) == UserMap(db) <==> RepeatsUser(db, ps)
  {
    hide IsMeta, ApplyPairs, LastWrite;
    var after, before := UserMap(ApplyPairs(db, ps)), UserMap(db);
    if RepeatsUser(db, ps) {
      forall k: seq<byte>
        ensures k in after <==> k in before
        ensures k in after ==> after[k] == before[k]
      {
        ApplyPairsAt(db, ps, k);
        if forall p :: p in ps ==> p.0 != k { UnwrittenKey(ps, k); }
      }
      assert after == before;
    }
    if after == before {
      forall p | p in ps && !IsMeta(p.0) ensures p.0 in db && LastWrite(ps, p.0) == Some(db[p.0]) {
        ApplyPairsAt(db, ps, p.0);
        WrittenKey(ps, p);
        assert p.0 in after && p.0 in before;
      }
    }
  }

  // ---------- The database object ----------

  function WithoutMeta(ks: seq<seq<byte>>): seq<seq<byte>> {
    if ks == [] then []
    else WithoutMeta(ks[..|ks| - 1]) + if IsMeta(ks[|ks| - 1]) then [] else [ks[|ks| - 1]]
  }

  lemma {:induction false} WithoutMetaSorted(ks: seq<seq<byte>>)
    requires StrictlySorted(ks)
    ensures StrictlySorted(WithoutMeta(ks))
    ensures forall k :: k in WithoutMeta(ks) <==> k in ks && !IsMeta(k)
  {
    hide IsMeta, LexLess;
    if ks != [] {
      var front, last := ks[..|ks| - 1], ks[|ks| - 1];
      WithoutMetaSorted(front);
      assert ks == front + [last];
      var kept := WithoutMeta(front);
      assert forall i :: 0 <= i < |kept| ==> kept[i] in front;
    }
  }

  lemma FeedAppend(db: DB, ks: seq<seq<byte>>, k: seq<byte>)
    ensures Feed(db, ks + [k]) == Feed(db, ks) + Entry(db, k)
  {
    assert (ks + [k])[..|ks|] == ks;
  }

  lemma UserEntry(db: DB, k: seq<byte>)
    ensures Entry(UserMap(db), k) == if IsMeta(k) then [] else Entry(db, k)
  {
  }

  /** One turn of the hash loop. */
  lemma FeedUserStep(db: DB, ks: seq<seq<byte>>, i: nat)
    requires i < |ks| && ks[i] in db
    ensures Feed(UserMap(db), ks[..i + 1])
      == Feed(UserMap(db), ks[..i]) + if IsMeta(ks[i]) then [] else ks[i] + db[ks[i]]
  {
    assert ks[..i + 1] == ks[..i] + [ks[i]];
    FeedAppend(UserMap(db), ks[..i], ks[i]);
    UserEntry(db, ks[i]);
    hide IsMeta, UserMap, Feed;
  }

  lemma FeedNothing(db: DB)
    ensures Feed(db, []) == []
  {
  }

  /** Feeding the user entries skips the two metadata keys. */
  lemma {:induction false} FeedWithoutMeta(db: DB, ks: seq<seq<byte>>)
    ensures Feed(UserMap(db), WithoutMeta(ks)) == Feed(UserMap(db), ks)
  {
    if ks != [] {
      var front, last := ks[..|ks| - 1], ks[|ks| - 1];
      assert WithoutMeta(front) + [] == WithoutMeta(front);
      hide Entry, IsMeta, UserMap;
      FeedWithoutMeta(db, front);
      UserEntry(db, last);
      FeedAppend(UserMap(db), WithoutMeta(front), last);
      assert Feed(UserMap(db), front) + [] == Feed(UserMap(db), front);
    }
  }

  lemma AllKeysFromStart(db: DB)
    ensures forall k :: k in SortedKeys(KeysFrom(db, [])) <==> k in db
  {
  }

  /** Fed from the database's first key on, they make the pre-image. */
  lemma FeedOfAll(db: DB)
    ensures Feed(UserMap(db), SortedKeys(KeysFrom(db, []))) == Preimage(db)
  {
    AllKeysFromStart(db);
    var ks := SortedKeys(KeysFrom(db, []));
    hide IsMeta, LexLess, SortedKeys, StrictlySorted, KeysFrom, Feed, WithoutMeta;
    WithoutMetaSorted(ks);
    SortedUnique(WithoutMeta(ks), UserMap(db).Keys);
    FeedWithoutMeta(db, ks);
  }

  class State {
    var db: DB
    const sha256: seq<byte> -> seq<byte>

    constructor (sha256: seq<byte> -> seq<byte>)
      ensures this.sha256 == sha256 && db == map[]
    {
      this.sha256 := sha256;
      db := map[];
    }

    method Get(key: seq<byte>) returns (val: Option<seq<byte>>)
      ensures val == if key in db then Some(db[key]) else None
    {
      val := if key in db then Some(db[key]) else None;
    }

    /** One transaction: all writes, in order. */
    method BatchSet(pairs: seq<Pair>)
      modifies this
      ensures db == ApplyPairs(old(db), pairs)
    {
      var txn := db;
      for i := 0 to |pairs|
        invariant txn == ApplyPairs(old(db), pairs[..i])
        invariant db == old(db)
      {
        assert pairs[..i + 1][..i] == pairs[..i];
        txn := txn[pairs[i].0 := pairs[i].1];
      }
      assert pairs[..|pairs|] == pairs;
      db := txn;
    }

    /** One transaction: both metadata keys. */
    method SaveMeta(height: int64, appHash: seq<byte>)
      modifies this
      ensures db == SaveMetaIn(old(db), height, appHash)
    {
      db := db[META_HEIGHT := HeightBytes(height)][META_HASH := appHash];
    }

    method LoadMeta() returns (r: Loaded)
      ensures r == LoadMetaFrom(db)
    {
      if META_HEIGHT !in db { return Meta(0, []); }
      var hb := db[META_HEIGHT];
      if |hb| < 8 { return Fatal; }
      var height := HeightOf(hb);
      if META_HASH !in db { return Fatal; }
      r := Meta(height, db[META_HASH]);
    }

    /** Feeds the hasher every entry in key order except the two metadata keys. */
    method Hash() returns (digest: seq<byte>)
      ensures digest == sha256(Preimage(db))
    {
      hide IsMeta, SortedKeys, KeysFrom, UserMap, Preimage, Feed, StrictlySorted;
      var h: seq<byte> := [];
      var ks := OpenIterator(db, []);
      AllKeysFromStart(db);
      FeedOfAll(db);
      FeedNothing(UserMap(db));
      for i := 0 to |ks|
        invariant h == Feed(UserMap(db), ks[..i])
      {
        var key := ks[i];
        assert key in ks;
        FeedUserStep(db, ks, i);
        if !IsMeta(key) {
          h := h + (key + db[key]);
        }
      }
      assert ks[..|ks|] == ks;
      digest := sha256(h);
    }
  }
}
